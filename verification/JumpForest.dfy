/**
  The forest a jump table makes of a tail's offsets, and the first offset the
  paths from many entries share.
 */
module JumpForest {
  import opened Options
  import opened Counting

  /** Where each offset's token ends; an offset with none is a terminal, and so is the end. */
  type Jumps = seq<Option<nat>>

  ghost predicate IsForest(jump: Jumps) {
    forall i: nat | i < |jump| && jump[i].Some? :: i < jump[i].value <= |jump|
  }

  /** The path from a passes p. */
  ghost predicate On(jump: Jumps, a: nat, p: nat)
    requires IsForest(jump)
    decreases |jump| - a
  {
    a == p || (a < |jump| && jump[a].Some? && On(jump, jump[a].value, p))
  }

  ghost function Terminal(jump: Jumps, a: nat): nat
    requires IsForest(jump)
    decreases |jump| - a
  {
    if a < |jump| && jump[a].Some? then Terminal(jump, jump[a].value) else a
  }

  /** A token begins at p on the path from a. */
  ghost predicate StartOn(jump: Jumps, a: nat, p: nat)
    requires IsForest(jump)
  {
    On(jump, a, p) && p < |jump| && jump[p].Some?
  }

  lemma {:induction false} OnForward(jump: Jumps, a: nat, p: nat)
    requires IsForest(jump) && On(jump, a, p)
    ensures a <= p && Terminal(jump, a) == Terminal(jump, p)
    decreases |jump| - a
  {
    if a != p {
      OnForward(jump, jump[a].value, p);
    }
  }

  lemma {:induction false} OnTransitive(jump: Jumps, a: nat, p: nat, q: nat)
    requires IsForest(jump) && On(jump, a, p) && On(jump, p, q)
    ensures On(jump, a, q)
    decreases |jump| - a
  {
    if a != p {
      OnTransitive(jump, jump[a].value, p, q);
    }
  }

  /** Of two offsets on one path the earlier leads to the later. */
  lemma {:induction false} OnOrdered(jump: Jumps, a: nat, p: nat, q: nat)
    requires IsForest(jump) && On(jump, a, p) && On(jump, a, q) && p <= q
    ensures On(jump, p, q)
    decreases |jump| - a
  {
    if a == q {
      OnForward(jump, a, p);
    } else if a != p {
      OnOrdered(jump, jump[a].value, p, q);
    }
  }

  lemma {:induction false} OnTerminal(jump: Jumps, a: nat)
    requires IsForest(jump)
    ensures On(jump, a, Terminal(jump, a))
    ensures Terminal(jump, a) < |jump| ==> jump[Terminal(jump, a)].None?
    ensures a <= |jump| ==> Terminal(jump, a) <= |jump|
    decreases |jump| - a
  {
    if a < |jump| && jump[a].Some? {
      OnTerminal(jump, jump[a].value);
    }
  }

  /** A later offset on a path has one before it there. */
  lemma {:induction false} OnBefore(jump: Jumps, a: nat, p: nat) returns (y: nat)
    requires IsForest(jump) && On(jump, a, p) && a != p
    ensures y < p && On(jump, a, y) && y < |jump| && jump[y] == Some(p)
    decreases |jump| - a
  {
    if jump[a].value == p {
      y := a;
    } else {
      y := OnBefore(jump, jump[a].value, p);
    }
  }

  /** Paths to different terminals share no offset. */
  lemma {:induction false} DifferentTerminals(jump: Jumps, a: nat, b: nat, p: nat)
    requires IsForest(jump) && Terminal(jump, a) != Terminal(jump, b)
    ensures !On(jump, a, p) || !On(jump, b, p)
  {
    if On(jump, a, p) {
      OnForward(jump, a, p);
    }
    if On(jump, b, p) {
      OnForward(jump, b, p);
    }
  }

  /** The terminal of every offset, right to left. */
  method Terminals(jump: Jumps) returns (terminal: seq<nat>)
    requires IsForest(jump)
    ensures |terminal| == |jump| + 1 && forall i: nat | i <= |jump| :: terminal[i] == Terminal(jump, i)
  {
    terminal := seq(|jump| + 1, i requires 0 <= i < |jump| + 1 => i);
    var i := |jump|;
    while i > 0
      invariant i <= |jump| && |terminal| == |jump| + 1
      invariant forall j: nat | i <= j <= |jump| :: terminal[j] == Terminal(jump, j)
    {
      i := i - 1;
      terminal := terminal[i := if jump[i].Some? then terminal[jump[i].value] else i];
    }
  }

  /** The committed starts of the scan from the entry, its terminal excluded. */
  method StartsFrom(jump: Jumps, entry: nat) returns (starts: set<nat>)
    requires IsForest(jump)
    ensures forall p: nat :: p in starts <==> StartOn(jump, entry, p)
  {
    starts := {};
    var at := entry;
    while at < |jump| && jump[at].Some?
      invariant forall p: nat :: StartOn(jump, entry, p) <==> p in starts || StartOn(jump, at, p)
      decreases |jump| - at
    {
      starts, at := starts + {at}, jump[at].value;
    }
  }

  // ----- where the paths from every entry meet -----

  /** The offset is on every path, and none before it is. */
  ghost predicate Meets(jump: Jumps, entries: seq<nat>, g: nat)
    requires IsForest(jump)
  {
    && AllOn(jump, entries, g)
    && forall p: nat | p < g :: !AllOn(jump, entries, p)
  }

  ghost predicate AllOn(jump: Jumps, entries: seq<nat>, p: nat)
    requires IsForest(jump)
  {
    forall i: nat | i < |entries| :: On(jump, entries[i], p)
  }

  /** The starts every path has are the starts from where they meet. */
  lemma {:induction false} MeetingStarts(jump: Jumps, entries: seq<nat>, g: nat, p: nat)
    requires IsForest(jump) && entries != [] && Meets(jump, entries, g)
    ensures StartOn(jump, g, p) <==> forall i: nat | i < |entries| :: StartOn(jump, entries[i], p)
  {
    if StartOn(jump, g, p) {
      forall i: nat | i < |entries| ensures StartOn(jump, entries[i], p) {
        OnTransitive(jump, entries[i], g, p);
      }
    }
    if forall i: nat | i < |entries| :: StartOn(jump, entries[i], p) {
      assert AllOn(jump, entries, p);
      OnOrdered(jump, entries[0], g, p);
    }
  }

  /** The entry's path has reached the offset by an offset below the bound, or begins there. */
  ghost predicate Arrived(jump: Jumps, a: nat, x: nat, bound: nat)
    requires IsForest(jump)
  {
    On(jump, a, x) && (a == x || exists y: nat :: y < bound && Passes(jump, a, y, x))
  }

  ghost predicate Passes(jump: Jumps, a: nat, y: nat, x: nat)
    requires IsForest(jump)
  {
    On(jump, a, y) && y < |jump| && jump[y] == Some(x)
  }

  lemma {:induction false} ArrivedAll(jump: Jumps, a: nat, x: nat)
    requires IsForest(jump)
    ensures Arrived(jump, a, x, x) <==> On(jump, a, x)
  {
    if On(jump, a, x) && a != x {
      var y := OnBefore(jump, a, x);
      assert Passes(jump, a, y, x);
    }
  }

  /** One offset more below the bound brings the paths it is on, none of them there already. */
  lemma {:induction false} ArrivedMore(jump: Jumps, a: nat, x: nat, bound: nat)
    requires IsForest(jump) && bound < x
    ensures Arrived(jump, a, x, bound + 1) <==> Arrived(jump, a, x, bound) || Passes(jump, a, bound, x)
    ensures !(Arrived(jump, a, x, bound) && Passes(jump, a, bound, x))
  {
    if Passes(jump, a, bound, x) {
      assert On(jump, bound, x);
      OnTransitive(jump, a, bound, x);
      OnForward(jump, a, bound);
      if y: nat :| y < bound && Passes(jump, a, y, x) {
        OnOrdered(jump, a, y, bound);
        OnForward(jump, x, bound);
      }
    }
    if Arrived(jump, a, x, bound + 1) && a != x {
      var y: nat :| y < bound + 1 && Passes(jump, a, y, x);
      assert y < bound ==> Arrived(jump, a, x, bound);
    }
  }

  /** The indices carried to an offset are those of the paths arrived there. */
  ghost predicate Carries(jump: Jumps, entries: seq<nat>, carried: seq<nat>, x: nat, bound: nat)
    requires IsForest(jump)
  {
    && Distinct(carried)
    && (forall i: nat | i in carried :: i < |entries|)
    && forall i: nat | i < |entries| :: i in carried <==> Arrived(jump, entries[i], x, bound)
  }

  lemma {:induction false} CarriesAll(jump: Jumps, entries: seq<nat>, carried: seq<nat>, x: nat)
    requires IsForest(jump) && Carries(jump, entries, carried, x, x)
    ensures forall i: nat | i in carried :: i < |entries|
    ensures forall i: nat | i < |entries| :: i in carried <==> On(jump, entries[i], x)
    ensures |carried| == |entries| <==> AllOn(jump, entries, x)
  {
    forall i: nat | i < |entries| ensures i in carried <==> On(jump, entries[i], x) {
      ArrivedAll(jump, entries[i], x);
    }
    hide Arrived, On;
    forall j | 0 <= j < |carried| ensures carried[j] < |entries| {
      assert carried[j] in carried;
    }
    if |carried| == |entries| {
      forall i: nat | i < |entries| ensures On(jump, entries[i], x) {
        InjectiveIsOnto(carried, |entries|, i);
      }
    } else {
      DistinctBelow(carried, |entries|);
      if AllOn(jump, entries, x) {
        SomeLeft(carried, |entries|);
      }
    }
  }

  /** Fewer indices than the bound leave one out. */
  lemma {:induction false} SomeLeft(carried: seq<nat>, n: nat)
    requires |carried| < n
    ensures exists i: nat :: i < n && i !in carried
  {
    if forall i: nat | i < n :: i in carried {
      forall x: nat | x in Below(n) ensures x in Image(carried) {
        assert x in carried;
        var k :| 0 <= k < |carried| && carried[k] == x;
      }
      SubsetSize(Below(n), Image(carried));
      ImageAtMost(carried);
    }
  }

  lemma {:induction false} ImageAtMost(g: seq<nat>)
    ensures |Image(g)| <= |g|
  {
    if g != [] {
      var front, last := g[..|g| - 1], g[|g| - 1];
      ImageAtMost(front);
      assert Image(g) <= Image(front) + {last};
      SubsetSize(Image(g), Image(front) + {last});
    }
  }

  lemma {:induction false} CarriesOn(
      jump: Jumps, entries: seq<nat>, carried: seq<nat>, x: nat, bound: nat, here: seq<nat>, moves: bool)
    requires IsForest(jump) && bound < x && Carries(jump, entries, carried, x, bound)
    requires Carries(jump, entries, here, bound, bound)
    requires moves <==> bound < |jump| && jump[bound] == Some(x)
    ensures Carries(jump, entries, if moves then carried + here else carried, x, bound + 1)
  {
    CarriesAll(jump, entries, here, bound);
    forall i: nat | i < |entries|
      ensures Arrived(jump, entries[i], x, bound + 1) <==> Arrived(jump, entries[i], x, bound) || (moves && i in here)
      ensures !(Arrived(jump, entries[i], x, bound) && moves && i in here)
    {
      ArrivedMore(jump, entries[i], x, bound);
    }
    hide Arrived, On;
    var more := carried + here;
    if moves {
      forall j, k | 0 <= j < k < |more| ensures more[j] != more[k] {
        if j < |carried| <= k {
          assert more[j] in carried && more[k] in here;
        }
      }
    }
  }

  ghost predicate CarriesFrom(jump: Jumps, entries: seq<nat>, carried: seq<seq<nat>>, node: nat)
    requires IsForest(jump)
  {
    && |carried| == |jump| + 1
    && forall x: nat | x <= |jump| :: Carries(jump, entries, carried[x], x, if x < node then x else node)
  }

  /** Some entry's path passes the offset. */
  ghost predicate SomeOn(jump: Jumps, entries: seq<nat>, carried: seq<seq<nat>>, y: nat)
    requires IsForest(jump)
  {
    && y < |carried| && (forall i: nat | i in carried[y] :: i < |entries|)
    && forall i: nat | i < |entries| :: i in carried[y] <==> On(jump, entries[i], y)
  }

  ghost predicate Begins(here: seq<nat>, entries: seq<nat>, x: nat, bound: nat)
    requires bound <= |entries|
  {
    Distinct(here) && forall i: nat :: i in here <==> i < bound && entries[i] == x
  }

  /** The indices begun at each offset. */
  method Entered(jump: Jumps, entries: seq<nat>) returns (carried: seq<seq<nat>>)
    requires IsForest(jump) && forall i: nat | i < |entries| :: entries[i] <= |jump|
    ensures CarriesFrom(jump, entries, carried, 0)
  {
    carried := seq(|jump| + 1, _ => []);
    for index := 0 to |entries|
      invariant |carried| == |jump| + 1
      invariant forall x: nat | x <= |jump| :: Begins(carried[x], entries, x, index)
    {
      ghost var before := carried;
      carried := carried[entries[index] := carried[entries[index]] + [index]];
      forall x: nat | x <= |jump| ensures Begins(carried[x], entries, x, index + 1) {
        assert Begins(before[x], entries, x, index);
      }
    }
    forall x: nat | x <= |jump| ensures Carries(jump, entries, carried[x], x, 0) {
      assert Begins(carried[x], entries, x, |entries|);
    }
  }

  /** Carries the entries along the jumps in increasing offset order, up to the first offset that carries them all. */
  method FindMeeting(jump: Jumps, entries: seq<nat>) returns (g: nat, carried: seq<seq<nat>>)
    requires IsForest(jump) && entries != [] && forall i: nat | i < |entries| :: entries[i] <= |jump|
    requires forall i: nat | i < |entries| :: Terminal(jump, entries[i]) == Terminal(jump, entries[0])
    ensures g <= |jump| && Meets(jump, entries, g) && |carried| == |jump| + 1
    ensures forall y: nat | y <= g :: SomeOn(jump, entries, carried, y)
  {
    hide Arrived, On, Terminal, Carries, Meets;
    carried := Entered(jump, entries);
    g := 0;
    MeetAtLast(jump, entries);
    while true
      invariant g <= |jump| && CarriesFrom(jump, entries, carried, g)
      invariant forall p: nat | p < g :: !AllOn(jump, entries, p)
      invariant exists last: nat :: last <= |jump| && AllOn(jump, entries, last)
      decreases |jump| - g
    {
      CarriesAll(jump, entries, carried[g], g);
      if |carried[g]| == |entries| {
        break;
      }
      ghost var before := carried;
      if g < |jump| && jump[g].Some? && |carried[g]| > 0 {
        var to := jump[g].value;
        carried := carried[to := carried[to] + carried[g]];
      }
      CarriesStep(jump, entries, before, carried, g);
      g := g + 1;
    }
    MeetsFirst(jump, entries, g);
    forall y: nat | y <= g ensures SomeOn(jump, entries, carried, y) {
      CarriesAll(jump, entries, carried[y], y);
    }
  }

  lemma MeetsFirst(jump: Jumps, entries: seq<nat>, g: nat)
    requires IsForest(jump) && AllOn(jump, entries, g) && forall p: nat | p < g :: !AllOn(jump, entries, p)
    ensures Meets(jump, entries, g)
  {
  }

  lemma {:induction false} MeetAtLast(jump: Jumps, entries: seq<nat>)
    requires IsForest(jump) && entries != [] && forall i: nat | i < |entries| :: entries[i] <= |jump|
    requires forall i: nat | i < |entries| :: Terminal(jump, entries[i]) == Terminal(jump, entries[0])
    ensures exists last: nat :: last <= |jump| && AllOn(jump, entries, last)
  {
    hide Terminal, On;
    var last := Terminal(jump, entries[0]);
    OnTerminal(jump, entries[0]);
    forall i: nat | i < |entries| ensures On(jump, entries[i], last) {
      OnTerminal(jump, entries[i]);
    }
    assert AllOn(jump, entries, last);
  }

  lemma {:induction false} CarriesStep(
      jump: Jumps, entries: seq<nat>, before: seq<seq<nat>>, carried: seq<seq<nat>>, g: nat)
    requires IsForest(jump) && g <= |jump| && CarriesFrom(jump, entries, before, g)
    requires |carried| == |before|
    requires forall x: nat | x <= |jump| ::
      carried[x] == if g < |jump| && jump[g] == Some(x) && |before[g]| > 0 then before[x] + before[g] else before[x]
    ensures CarriesFrom(jump, entries, carried, g + 1)
  {
    hide Arrived, On, Carries;
    forall x: nat | x <= |jump| ensures Carries(jump, entries, carried[x], x, if x < g + 1 then x else g + 1) {
      if g < x {
        var moves := g < |jump| && jump[g] == Some(x);
        CarriesOn(jump, entries, before[x], x, g, before[g], moves);
        assert before[x] + [] == before[x];
      }
    }
  }

  // ----- two paths that meet where all do -----

  /** Paths through two different offsets with one next offset share what is on the path from it. */
  lemma {:induction false} TwoChildrenMeet(jump: Jumps, a: nat, b: nat, c: nat, e: nat, g: nat, p: nat)
    requires IsForest(jump) && Passes(jump, a, c, g) && Passes(jump, b, e, g) && c != e
    ensures On(jump, a, p) && On(jump, b, p) <==> On(jump, g, p)
  {
    if On(jump, g, p) {
      assert On(jump, c, p) && On(jump, e, p);
      OnTransitive(jump, a, c, p);
      OnTransitive(jump, b, e, p);
    } else if On(jump, a, p) && On(jump, b, p) {
      BeforeMeeting(jump, a, c, g, p);
      BeforeMeeting(jump, b, e, g, p);
      OneNext(jump, p, c, e, g);
    }
  }

  lemma {:induction false} BeforeMeeting(jump: Jumps, a: nat, c: nat, g: nat, p: nat)
    requires IsForest(jump) && Passes(jump, a, c, g) && On(jump, a, p) && !On(jump, g, p)
    ensures On(jump, p, c)
  {
    if p <= c {
      OnOrdered(jump, a, p, c);
    } else {
      OnOrdered(jump, a, c, p);
    }
  }

  lemma {:induction false} OneNext(jump: Jumps, p: nat, c: nat, e: nat, g: nat)
    requires IsForest(jump) && On(jump, p, c) && On(jump, p, e)
    requires c < |jump| && e < |jump| && jump[c] == Some(g) && jump[e] == Some(g)
    ensures c == e
  {
    if c < e {
      OnOrdered(jump, p, c, e);
      OnForward(jump, g, e);
    } else if e < c {
      OnOrdered(jump, p, e, c);
      OnForward(jump, g, c);
    }
  }

  /** One or two entries whose paths share exactly what all of them share. */
  ghost predicate Bases(jump: Jumps, entries: seq<nat>, g: nat, basis: seq<nat>)
    requires IsForest(jump)
  {
    && 1 <= |basis| <= 2 && (forall k: nat | k < |basis| :: basis[k] < |entries|)
    && forall p: nat :: On(jump, g, p) <==> forall k: nat | k < |basis| :: On(jump, entries[basis[k]], p)
  }

  /** An entry at the meeting, or two entries that come to it through different offsets. */
  method FindBasis(jump: Jumps, entries: seq<nat>, g: nat, carried: seq<seq<nat>>) returns (basis: seq<nat>)
    requires IsForest(jump) && entries != [] && g <= |jump| && |carried| == |jump| + 1 && Meets(jump, entries, g)
    requires forall y: nat | y <= g :: SomeOn(jump, entries, carried, y)
    ensures Bases(jump, entries, g, basis)
  {
    hide On;
    assert SomeOn(jump, entries, carried, g);
    for j := 0 to |carried[g]|
      invariant forall k | 0 <= k < j :: carried[g][k] < |entries| && entries[carried[g][k]] != g
    {
      assert carried[g][j] in carried[g];
      if entries[carried[g][j]] == g {
        basis := [carried[g][j]];
        assert entries[basis[0]] == g;
        return;
      }
    }
    var children: seq<nat> := [];
    for node := 0 to g
      invariant forall k: nat | k < |children| ::
        children[k] < node && jump[children[k]] == Some(g) && carried[children[k]] != []
      invariant forall y: nat | y < node && jump[y] == Some(g) && carried[y] != [] :: y in children
      invariant Distinct(children)
    {
      if jump[node] == Some(g) && carried[node] != [] {
        children := children + [node];
      }
    }
    TwoChildren(jump, entries, g, carried, children);
    var a, b := carried[children[0]][0], carried[children[1]][0];
    assert SomeOn(jump, entries, carried, children[0]) && SomeOn(jump, entries, carried, children[1]);
    assert a in carried[children[0]] && b in carried[children[1]];
    basis := [a, b];
    forall p: nat ensures On(jump, g, p) <==> forall k: nat | k < |basis| :: On(jump, entries[basis[k]], p) {
      TwoChildrenMeet(jump, entries[a], entries[b], children[0], children[1], g, p);
      assert basis[0] == a && basis[1] == b;
    }
  }

  /** Were every path to come through one offset, they would have met there. */
  lemma {:induction false} TwoChildren(
      jump: Jumps, entries: seq<nat>, g: nat, carried: seq<seq<nat>>, children: seq<nat>)
    requires IsForest(jump) && entries != [] && g <= |jump| && |carried| == |jump| + 1 && Meets(jump, entries, g)
    requires forall y: nat | y <= g :: SomeOn(jump, entries, carried, y)
    requires forall k | 0 <= k < |carried[g]| :: carried[g][k] < |entries| && entries[carried[g][k]] != g
    requires forall k: nat | k < |children| :: children[k] < g
    requires forall y: nat | y < g && jump[y] == Some(g) && carried[y] != [] :: y in children
    ensures |children| >= 2
  {
    var k := ThroughChild(jump, entries, g, carried, children, 0);
    assert children[k] < g;
    var i := NotAllThrough(jump, entries, g, children[k]);
    var l := ThroughChild(jump, entries, g, carried, children, i);
    assert k != l;
  }

  /** Every path comes to the offset through one of the children. */
  lemma {:induction false} ThroughChild(
      jump: Jumps, entries: seq<nat>, g: nat, carried: seq<seq<nat>>, children: seq<nat>, i: nat) returns (k: nat)
    requires IsForest(jump) && g <= |jump| && |carried| == |jump| + 1 && Meets(jump, entries, g) && i < |entries|
    requires forall y: nat | y <= g :: SomeOn(jump, entries, carried, y)
    requires forall k | 0 <= k < |carried[g]| :: carried[g][k] < |entries| && entries[carried[g][k]] != g
    requires forall y: nat | y < g && jump[y] == Some(g) && carried[y] != [] :: y in children
    ensures k < |children| && On(jump, entries[i], children[k])
  {
    hide On;
    assert SomeOn(jump, entries, carried, g) && i in carried[g];
    var y := OnBefore(jump, entries[i], g);
    assert SomeOn(jump, entries, carried, y) && i in carried[y];
    k :| 0 <= k < |children| && children[k] == y;
  }

  lemma {:induction false} NotAllThrough(jump: Jumps, entries: seq<nat>, g: nat, c: nat) returns (i: nat)
    requires IsForest(jump) && Meets(jump, entries, g) && c < g
    ensures i < |entries| && !On(jump, entries[i], c)
  {
    assert !AllOn(jump, entries, c);
    hide On, Meets, IsForest;
    assert exists j: nat :: j < |entries| && !On(jump, entries[j], c);
    i :| i < |entries| && !On(jump, entries[i], c);
  }
}

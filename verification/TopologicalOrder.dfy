/** Ordering the vertices of a finite graph so that every edge leads forward, or finding that walks in it never end. */
module TopologicalOrder {
  import opened Options
  import Counting

  type Successors = nat -> seq<nat>

  ghost predicate Targets(count: nat, successors: Successors) {
    forall v: nat | v < count :: forall i | 0 <= i < |successors(v)| :: successors(v)[i] < count
  }

  ghost predicate Leads(successors: Successors, u: nat, v: nat) {
    v in successors(u)
  }

  /** A walk of as many edges as wanted. */
  ghost predicate IsWalk(count: nat, successors: Successors, walk: seq<nat>) {
    && walk != [] && (forall i | 0 <= i < |walk| :: walk[i] < count)
    && forall i | 0 <= i < |walk| - 1 :: Leads(successors, walk[i], walk[i + 1])
  }

  ghost predicate WalksFor(count: nat, successors: Successors, edges: nat) {
    exists walk :: IsWalk(count, successors, walk) && |walk| == edges + 1
  }

  /** Every vertex once, and no edge leads back. */
  ghost predicate IsForward(count: nat, successors: Successors, order: seq<nat>) {
    && |order| == count && Counting.Distinct(order) && (forall i | 0 <= i < |order| :: order[i] < count)
    && forall i, j | 0 <= i <= j < |order| :: !Leads(successors, order[j], order[i])
  }

  // ----- counting the edges into a vertex -----

  /** The edges into v out of the vertices below n not placed yet. */
  ghost function Waiting(successors: Successors, placed: set<nat>, n: nat, v: nat): nat {
    if n == 0 then 0
    else Waiting(successors, placed, n - 1, v) + if n - 1 in placed then 0 else multiset(successors(n - 1))[v]
  }

  lemma {:induction false} PlaceOne(successors: Successors, placed: set<nat>, n: nat, u: nat, v: nat)
    requires u !in placed
    ensures Waiting(successors, placed, n, v) ==
              Waiting(successors, placed + {u}, n, v) + if u < n then multiset(successors(u))[v] else 0
  {
    if n > 0 {
      PlaceOne(successors, placed, n - 1, u, v);
    }
  }

  /** None wait exactly where every vertex with an edge into v is placed. */
  lemma {:induction false} NoneWaits(successors: Successors, placed: set<nat>, n: nat, v: nat)
    ensures Waiting(successors, placed, n, v) == 0 <==>
              forall u: nat | u < n && u !in placed :: !Leads(successors, u, v)
  {
    if n > 0 {
      NoneWaits(successors, placed, n - 1, v);
      assert Leads(successors, n - 1, v) <==> multiset(successors(n - 1))[v] > 0;
      if forall u: nat | u < n - 1 && u !in placed :: !Leads(successors, u, v) {
        assert forall u: nat | u < n && u !in placed && u != n - 1 :: !Leads(successors, u, v);
      }
    }
  }

  lemma {:induction false} MultisetSnoc(s: seq<nat>, i: nat, v: nat)
    requires i < |s|
    ensures multiset(s[..i + 1])[v] == multiset(s[..i])[v] + if s[i] == v then 1 else 0
    ensures multiset(s[i..])[v] == multiset(s[i + 1..])[v] + if s[i] == v then 1 else 0
  {
    assert s[..i + 1] == s[..i] + [s[i]];
    assert s[i..] == [s[i]] + s[i + 1..];
  }

  ghost function Placed(order: seq<nat>, at: nat): set<nat>
    requires at <= |order|
  {
    set i | 0 <= i < at :: order[i]
  }

  lemma {:induction false} PlacedMore(order: seq<nat>, at: nat)
    requires at < |order| && Counting.Distinct(order)
    ensures Placed(order, at + 1) == Placed(order, at) + {order[at]} && order[at] !in Placed(order, at)
  {
    forall x ensures x in Placed(order, at + 1) <==> x in Placed(order, at) + {order[at]} {
    }
  }

  /** The counts and the order agree once the first vertices of the order are placed. */
  ghost predicate Counted(
      count: nat, successors: Successors, incoming: seq<nat>, order: seq<nat>, at: nat)
  {
    && |incoming| == count && at <= |order| && Counting.Distinct(order)
    && (forall i | 0 <= i < |order| :: order[i] < count)
    && (forall v: nat | v < count :: incoming[v] == Waiting(successors, Placed(order, at), count, v))
    && (forall v: nat | v < count :: v in order <==> incoming[v] == 0)
  }

  /** Between two edges of the vertex being placed. */
  ghost predicate Placing(
      count: nat, successors: Successors, incoming: seq<nat>, order: seq<nat>, at: nat, i: nat)
  {
    && |incoming| == count && at < |order| && Counting.Distinct(order)
    && (forall k | 0 <= k < |order| :: order[k] < count) && i <= |successors(order[at])|
    && (forall v: nat | v < count ::
          incoming[v] == Waiting(successors, Placed(order, at + 1), count, v) + multiset(successors(order[at])[i..])[v])
    && (forall v: nat | v < count :: v in order <==> incoming[v] == 0)
  }

  lemma {:induction false} StartsPlacing(
      count: nat, successors: Successors, incoming: seq<nat>, order: seq<nat>, at: nat)
    requires Counted(count, successors, incoming, order, at) && at < |order|
    ensures Placing(count, successors, incoming, order, at, 0)
  {
    var u := order[at];
    PlacedMore(order, at);
    assert successors(u)[0..] == successors(u);
    forall v: nat | v < count
      ensures incoming[v] == Waiting(successors, Placed(order, at + 1), count, v) + multiset(successors(u)[0..])[v]
    {
      PlaceOne(successors, Placed(order, at), count, u, v);
    }
  }

  lemma {:induction false} EndsPlacing(count: nat, successors: Successors, incoming: seq<nat>, order: seq<nat>, at: nat)
    requires at < |order| && Placing(count, successors, incoming, order, at, |successors(order[at])|)
    ensures Counted(count, successors, incoming, order, at + 1)
  {
    var s := successors(order[at]);
    assert s[|s|..] == [];
  }

  /**
    One edge out of the vertex being placed: its target waits for one fewer, and joins the order
    when it waits for none.
   */
  lemma {:induction false} PlacesEdge(
      count: nat, successors: Successors, incoming: seq<nat>, order: seq<nat>, at: nat, i: nat)
    requires Placing(count, successors, incoming, order, at, i) && i < |successors(order[at])|
    requires successors(order[at])[i] < count
    ensures var t := successors(order[at])[i];
            && incoming[t] > 0 && t !in order
            && var less := incoming[t := incoming[t] - 1];
               Placing(count, successors, less, if less[t] == 0 then order + [t] else order, at, i + 1)
  {
    var s := successors(order[at]);
    var t := s[i];
    forall v: nat | v < count ensures multiset(s[i..])[v] == multiset(s[i + 1..])[v] + if t == v then 1 else 0 {
      MultisetSnoc(s, i, v);
    }
    var less := incoming[t := incoming[t] - 1];
    var more := if less[t] == 0 then order + [t] else order;
    forall k | 0 <= k < |order| ensures order[k] != t {
      assert order[k] in order;
    }
    assert Placed(more, at + 1) == Placed(order, at + 1) by {
      forall k | 0 <= k < at + 1 ensures more[k] == order[k] {
      }
    }
    forall v: nat | v < count ensures v in more <==> less[v] == 0 {
      assert v in more <==> v in order || (less[t] == 0 && v == t);
    }
  }

  /** No edge leads from a placed vertex back to it or to one before. */
  ghost predicate NoneBack(successors: Successors, order: seq<nat>, at: nat)
    requires at <= |order|
  {
    forall i, j | 0 <= i <= j < at :: !Leads(successors, order[j], order[i])
  }

  /** A vertex about to be placed has no edge to one before it or to itself, for those wait for nothing. */
  lemma {:induction false} NextNotBack(count: nat, successors: Successors, incoming: seq<nat>, order: seq<nat>, at: nat)
    requires Counted(count, successors, incoming, order, at) && at < |order| && NoneBack(successors, order, at)
    ensures NoneBack(successors, order, at + 1)
  {
    PlacedMore(order, at);
    forall i, j | 0 <= i <= j < at + 1 ensures !Leads(successors, order[j], order[i]) {
      if j == at {
        assert order[i] in order;
        NoneWaits(successors, Placed(order, at), count, order[i]);
      }
    }
  }

  /** Some vertex of the set leads into it. */
  ghost predicate EnteredFrom(successors: Successors, left: set<nat>, v: nat) {
    exists u :: u in left && Leads(successors, u, v)
  }

  /** Where every vertex left over has another left over leading into it, a walk into it goes back as far as wanted. */
  lemma {:induction false} WalksBack(count: nat, successors: Successors, left: set<nat>, v: nat, n: nat)
    returns (walk: seq<nat>)
    requires v in left && forall u | u in left :: u < count && EnteredFrom(successors, left, u)
    ensures IsWalk(count, successors, walk) && |walk| == n + 1 && walk[n] == v
    decreases n
  {
    hide Leads;
    if n == 0 {
      walk := [v];
    } else {
      assert EnteredFrom(successors, left, v);
      var u :| u in left && Leads(successors, u, v);
      var before := WalksBack(count, successors, left, u, n - 1);
      walk := before + [v];
    }
  }

  lemma {:induction false} LeftoverEntered(
      count: nat, successors: Successors, incoming: seq<nat>, order: seq<nat>, left: set<nat>, u: nat)
    requires Counted(count, successors, incoming, order, |order|) && u in left
    requires forall v: nat :: v in left <==> v < count && v !in order
    ensures EnteredFrom(successors, left, u)
  {
    NoneWaits(successors, Placed(order, |order|), count, u);
    assert incoming[u] != 0;
    var w: nat :| w < count && w !in Placed(order, |order|) && Leads(successors, w, u);
    assert forall k | 0 <= k < |order| :: order[k] in Placed(order, |order|);
    assert w in left;
  }

  lemma {:induction false} LeftoverWalks(
      count: nat, successors: Successors, incoming: seq<nat>, order: seq<nat>, n: nat)
    requires Counted(count, successors, incoming, order, |order|) && |order| < count
    ensures WalksFor(count, successors, n)
  {
    var left := set v: nat | v < count && v !in order;
    var v := SomeLeft(count, order);
    forall u | u in left ensures EnteredFrom(successors, left, u) {
      LeftoverEntered(count, successors, incoming, order, left, u);
    }
    var walk := WalksBack(count, successors, left, v, n);
  }

  lemma {:induction false} SomeLeft(count: nat, order: seq<nat>) returns (v: nat)
    requires |order| < count && Counting.Distinct(order) && forall i | 0 <= i < |order| :: order[i] < count
    ensures v < count && v !in order
  {
    Counting.ImageSize(order);
    if Counting.Below(count) <= Counting.Image(order) {
      Counting.SubsetSize(Counting.Below(count), Counting.Image(order));
    }
    v :| v in Counting.Below(count) && v !in Counting.Image(order);
    assert forall k | 0 <= k < |order| :: order[k] in Counting.Image(order);
  }

  // ----- the ordering -----

  /** Counts one vertex's edges on top of what is counted. */
  method CountOne(count: nat, counted: seq<nat>, targets: seq<nat>) returns (incoming: seq<nat>)
    requires |counted| == count && forall t | t in targets :: t < count
    ensures |incoming| == count && forall v: nat | v < count :: incoming[v] == counted[v] + multiset(targets)[v]
  {
    incoming := counted;
    for i := 0 to |targets|
      invariant |incoming| == count
      invariant forall v: nat | v < count :: incoming[v] == counted[v] + multiset(targets[..i])[v]
    {
      forall v: nat | v < count
        ensures multiset(targets[..i + 1])[v] == multiset(targets[..i])[v] + if targets[i] == v then 1 else 0
      {
        MultisetSnoc(targets, i, v);
      }
      assert targets[i] in targets;
      incoming := incoming[targets[i] := incoming[targets[i]] + 1];
    }
    assert targets[..|targets|] == targets;
  }

  method CountIncoming(count: nat, successors: Successors) returns (incoming: seq<nat>)
    requires Targets(count, successors)
    ensures |incoming| == count
    ensures forall v: nat | v < count :: incoming[v] == Waiting(successors, {}, count, v)
  {
    incoming := seq(count, _ => 0);
    for vertex := 0 to count
      invariant |incoming| == count
      invariant forall v: nat | v < count :: incoming[v] == Waiting(successors, {}, vertex, v)
    {
      incoming := CountOne(count, incoming, successors(vertex));
    }
  }

  /** The vertices no edge leads into. */
  method Sources(count: nat, incoming: seq<nat>) returns (order: seq<nat>)
    requires |incoming| == count
    ensures Counting.Distinct(order) && forall v: nat :: v in order <==> v < count && incoming[v] == 0
  {
    order := [];
    for vertex := 0 to count
      invariant Counting.Distinct(order) && forall v: nat :: v in order <==> v < vertex && incoming[v] == 0
    {
      if incoming[vertex] == 0 {
        assert forall i | 0 <= i < |order| :: order[i] in order;
        order := order + [vertex];
      }
    }
  }

  /** Takes the edges out of one placed vertex away. */
  method Place(count: nat, successors: Successors, incoming0: seq<nat>, order0: seq<nat>, at: nat)
    returns (incoming: seq<nat>, order: seq<nat>)
    requires Targets(count, successors) && Counted(count, successors, incoming0, order0, at) && at < |order0|
    ensures Counted(count, successors, incoming, order, at + 1) && order0 <= order
  {
    incoming, order := incoming0, order0;
    StartsPlacing(count, successors, incoming, order, at);
    var targets := successors(order[at]);
    for i := 0 to |targets|
      invariant order0 <= order && Placing(count, successors, incoming, order, at, i)
    {
      PlacesEdge(count, successors, incoming, order, at, i);
      hide Placing;
      var target := targets[i];
      incoming := incoming[target := incoming[target] - 1];
      if incoming[target] == 0 {
        order := order + [target];
      }
    }
    EndsPlacing(count, successors, incoming, order, at);
  }

  /** An order of the vertices every edge respects; none where walks in the graph are as long as wanted. */
  method ForwardOrder(count: nat, successors: Successors) returns (result: Option<seq<nat>>)
    requires Targets(count, successors)
    ensures result.Some? ==> IsForward(count, successors, result.value)
    ensures result.None? ==> forall n: nat :: WalksFor(count, successors, n)
  {
    var incoming := CountIncoming(count, successors);
    var order := Sources(count, incoming);
    assert forall i | 0 <= i < |order| :: order[i] in order;
    assert Placed(order, 0) == {};
    var at := 0;
    while at < |order|
      invariant at <= |order| && Counted(count, successors, incoming, order, at) && NoneBack(successors, order, at)
      decreases count - at
    {
      Counting.DistinctBelow(order, count);
      NextNotBack(count, successors, incoming, order, at);
      ghost var before := order;
      incoming, order := Place(count, successors, incoming, order, at);
      forall i, j | 0 <= i <= j < at + 1 ensures !Leads(successors, order[j], order[i]) {
        assert order[i] == before[i] && order[j] == before[j];
      }
      at := at + 1;
    }
    Counting.DistinctBelow(order, count);
    if |order| < count {
      forall n: nat ensures WalksFor(count, successors, n) {
        LeftoverWalks(count, successors, incoming, order, n);
      }
      return None;
    }
    result := Some(order);
  }

  // ----- the longest walk along an order -----

  /** A walk of so many edges ends at the vertex. */
  ghost predicate WalkTo(count: nat, successors: Successors, v: nat, edges: nat) {
    exists walk :: IsWalk(count, successors, walk) && |walk| == edges + 1 && walk[edges] == v
  }

  lemma {:induction false} WalkOn(count: nat, successors: Successors, u: nat, v: nat, edges: nat)
    requires WalkTo(count, successors, u, edges) && Leads(successors, u, v) && v < count
    ensures WalkTo(count, successors, v, edges + 1)
  {
    hide Leads;
    var walk :| IsWalk(count, successors, walk) && |walk| == edges + 1 && walk[edges] == u;
    var more := walk + [v];
    forall i | 0 <= i < |more| - 1 ensures Leads(successors, more[i], more[i + 1]) {
      assert i < edges ==> more[i] == walk[i] && more[i + 1] == walk[i + 1];
    }
    assert IsWalk(count, successors, more);
  }

  /** Every edge out of the placed vertices is counted in what its target attains. */
  ghost predicate Attained(count: nat, successors: Successors, order: seq<nat>, run: seq<nat>, at: nat) {
    && |run| == count && at <= |order|
    && (forall v: nat | v < count :: WalkTo(count, successors, v, run[v]))
    && (forall j | 0 <= j < at :: AttainedFrom(count, successors, order, run, j))
  }

  ghost predicate AttainedFrom(count: nat, successors: Successors, order: seq<nat>, run: seq<nat>, j: nat) {
    && |run| == count && j < |order| && order[j] < count
    && forall v: nat | v < count && Leads(successors, order[j], v) :: run[order[j]] + 1 <= run[v]
  }

  lemma {:induction false} WalksAttained(
      count: nat, successors: Successors, order: seq<nat>, run: seq<nat>, walk: seq<nat>, k: nat)
    requires IsForward(count, successors, order) && Attained(count, successors, order, run, |order|)
    requires IsWalk(count, successors, walk) && k < |walk|
    ensures k <= run[walk[k]]
  {
    hide Leads;
    if k > 0 {
      WalksAttained(count, successors, order, run, walk, k - 1);
      var u := walk[k - 1];
      var j := PlaceOf(count, successors, order, u);
      assert AttainedFrom(count, successors, order, run, j);
      assert Leads(successors, walk[k - 1], walk[k - 1 + 1]);
    }
  }

  lemma {:induction false} PlaceOf(count: nat, successors: Successors, order: seq<nat>, v: nat) returns (j: nat)
    requires IsForward(count, successors, order) && v < count
    ensures j < |order| && order[j] == v
  {
    Counting.InjectiveIsOnto(order, count, v);
    j :| 0 <= j < |order| && order[j] == v;
  }

  /** Counts the edges out of one vertex in. */
  method Attain(count: nat, successors: Successors, order: seq<nat>, run0: seq<nat>, at: nat) returns (run: seq<nat>)
    requires Targets(count, successors) && IsForward(count, successors, order)
    requires at < |order| && Attained(count, successors, order, run0, at)
    ensures Attained(count, successors, order, run, at + 1)
  {
    hide WalkTo;
    run := run0;
    var u := order[at];
    var targets := successors(u);
    for i := 0 to |targets|
      invariant |run| == count && run[u] == run0[u]
      invariant forall v: nat | v < count :: run0[v] <= run[v] && WalkTo(count, successors, v, run[v])
      invariant forall j | 0 <= j < at :: run[order[j]] == run0[order[j]]
      invariant forall k | 0 <= k < i :: run[u] + 1 <= run[targets[k]]
    {
      var target := targets[i];
      assert Leads(successors, order[at], target);
      assert target != u && forall j | 0 <= j <= at :: order[j] != target;
      WalkOn(count, successors, u, target, run[u]);
      if run[target] < run[u] + 1 {
        run := run[target := run[u] + 1];
      }
    }
    forall j | 0 <= j < at + 1 ensures AttainedFrom(count, successors, order, run, j) {
      assert j < at ==> AttainedFrom(count, successors, order, run0, j);
    }
  }

  /** The most edges a walk takes along an order every edge respects. */
  method LongestWalk(count: nat, successors: Successors, order: seq<nat>) returns (longest: nat)
    requires Targets(count, successors) && IsForward(count, successors, order) && count > 0
    ensures WalksFor(count, successors, longest)
    ensures forall n: nat | WalksFor(count, successors, n) :: n <= longest
  {
    hide Leads, IsForward;
    var run := seq(count, _ => 0);
    forall v: nat | v < count ensures WalkTo(count, successors, v, 0) {
      assert IsWalk(count, successors, [v]);
    }
    assert |order| == count by {
      OrderLength(count, successors, order);
    }
    for at := 0 to |order|
      invariant Attained(count, successors, order, run, at)
    {
      run := Attain(count, successors, order, run, at);
    }
    longest := Greatest(run);
    var best :| 0 <= best < count && run[best] == longest;
    assert WalkTo(count, successors, best, run[best]);
    forall n: nat | WalksFor(count, successors, n) ensures n <= longest {
      var walk :| IsWalk(count, successors, walk) && |walk| == n + 1;
      WalksAttained(count, successors, order, run, walk, n);
    }
  }

  lemma OrderLength(count: nat, successors: Successors, order: seq<nat>)
    requires IsForward(count, successors, order)
    ensures |order| == count
  {
  }

  method Greatest(s: seq<nat>) returns (most: nat)
    requires s != []
    ensures forall i | 0 <= i < |s| :: s[i] <= most
    ensures exists i :: 0 <= i < |s| && s[i] == most
  {
    most := s[0];
    for i := 1 to |s|
      invariant forall j | 0 <= j < i :: s[j] <= most
      invariant exists j :: 0 <= j < i && s[j] == most
    {
      if s[i] > most {
        most := s[i];
      }
    }
  }
}

/** Finite counting: the sizes of sets of numbers below a bound. */
module Counting {

  /** The numbers below n, as many as n. */
  function Below(n: nat): (r: set<nat>)
    ensures forall x: nat :: x in r <==> x < n
    ensures |r| == n
  {
    if n == 0 then {} else Below(n - 1) + {n - 1}
  }

  lemma {:induction false} SubsetSize<T>(a: set<T>, b: set<T>)
    requires a <= b
    ensures |a| <= |b|
  {
    if a != {} {
      var x :| x in a;
      SubsetSize(a - {x}, b - {x});
    }
  }

  lemma {:induction false} SmallerSet<T>(a: set<T>, b: set<T>)
    requires a < b
    ensures |a| < |b|
  {
    assert !(b <= a);
    var x :| x in b && x !in a;
    SubsetSize(a, b - {x});
  }

  ghost predicate Distinct<T(!new)>(g: seq<T>) {
    forall i, j | 0 <= i < j < |g| :: g[i] != g[j]
  }

  ghost function Image<T(!new)>(g: seq<T>): set<T> {
    set i | 0 <= i < |g| :: g[i]
  }

  /** A sequence without repeats has as many values as places. */
  lemma {:induction false} ImageSize<T(!new)>(g: seq<T>)
    requires Distinct(g)
    ensures |Image(g)| == |g|
  {
    if g != [] {
      var front, last := g[..|g| - 1], g[|g| - 1];
      ImageSize(front);
      assert Image(g) == Image(front) + {last} by {
        forall x | x in Image(g) ensures x in Image(front) + {last} {
          var i :| 0 <= i < |g| && g[i] == x;
          if i < |front| {
            assert front[i] == x;
          }
        }
        forall x | x in Image(front) + {last} ensures x in Image(g) {
          if x in Image(front) {
            var i :| 0 <= i < |front| && front[i] == x;
            assert g[i] == x;
          } else {
            assert g[|g| - 1] == x;
          }
        }
      }
      forall i | 0 <= i < |front| ensures front[i] != last {
        assert g[i] != g[|g| - 1];
      }
    }
  }

  /** Distinct values below a bound are at most that many. */
  lemma {:induction false} DistinctBelow(g: seq<nat>, n: nat)
    requires Distinct(g) && forall i | 0 <= i < |g| :: g[i] < n
    ensures |g| <= n
  {
    ImageSize(g);
    SubsetSize(Image(g), Below(n));
  }

  /** A set of n numbers below n is all of them. */
  lemma {:induction false} InjectiveIsOnto(g: seq<nat>, n: nat, c: nat)
    requires |g| == n && Distinct(g) && forall i | 0 <= i < n :: g[i] < n
    requires c < n
    ensures c in g
  {
    ImageSize(g);
    if c !in g {
      forall x | x in Image(g) ensures x in Below(n) && x != c {
      }
      assert c in Below(n) && Image(g) < Below(n);
      SmallerSet(Image(g), Below(n));
    }
  }
}

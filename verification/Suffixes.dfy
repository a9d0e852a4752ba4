/** The ends of sequences, where one occurs in another, and the longest prefix of one that the other ends with. */
module Suffixes {
  function Last<T>(s: seq<T>): T
    requires s != []
  {
    s[|s| - 1]
  }

  predicate Suffix<T(==)>(u: seq<T>, x: seq<T>) {
    |u| <= |x| && x[|x| - |u|..] == u
  }

  predicate OccursAt<T(==)>(x: seq<T>, core: seq<T>, i: nat) {
    i + |core| <= |x| && x[i..i + |core|] == core
  }

  ghost predicate Contains<T>(x: seq<T>, core: seq<T>) {
    exists i: nat :: OccursAt(x, core, i)
  }

  /** The longest prefix of the core that x ends with has length m. */
  ghost predicate IsMatched<T>(core: seq<T>, x: seq<T>, m: nat) {
    && m <= |core| && Suffix(core[..m], x)
    && forall n | m < n <= |core| :: !Suffix(core[..n], x)
  }

  /** A longer prefix ends a word one byte longer exactly when both their last bytes and what is before them agree. */
  lemma {:induction false} SuffixSnoc<T>(core: seq<T>, n: nat, x: seq<T>, b: T)
    requires 0 < n <= |core|
    ensures Suffix(core[..n], x + [b]) <==> core[n - 1] == b && Suffix(core[..n - 1], x)
  {
    var y := x + [b];
    if Suffix(core[..n], y) {
      assert y[|y| - 1] == core[..n][n - 1];
      assert x[|x| - (n - 1)..] == y[|y| - n..][..n - 1] == core[..n][..n - 1];
    }
    if core[n - 1] == b && Suffix(core[..n - 1], x) {
      assert y[|y| - n..] == x[|x| - (n - 1)..] + [b] == core[..n];
    }
  }

  /** Below a suffix, being a suffix of the word and of that suffix are the same. */
  lemma {:induction false} SuffixOfSuffix<T>(core: seq<T>, n: nat, m: nat, x: seq<T>)
    requires n <= m <= |core| && Suffix(core[..m], x)
    ensures Suffix(core[..n], x) <==> Suffix(core[..n], core[..m])
  {
    assert x[|x| - n..] == core[..m][m - n..];
  }

  lemma MatchedUnique<T>(core: seq<T>, x: seq<T>, m: nat, n: nat)
    requires IsMatched(core, x, m) && IsMatched(core, x, n)
    ensures m == n
  {
  }

  /** The matcher's position after one more byte depends on its position alone. */
  lemma {:induction false} MatchedForgets<T>(core: seq<T>, x: seq<T>, m: nat, b: T, n: nat)
    requires IsMatched(core, x, m)
    ensures IsMatched(core, x + [b], n) <==> IsMatched(core, core[..m] + [b], n)
  {
    forall k | 0 <= k <= |core| ensures Suffix(core[..k], x + [b]) <==> Suffix(core[..k], core[..m] + [b]) {
      if k > 0 {
        SuffixSnoc(core, k, x, b);
        SuffixSnoc(core, k, core[..m], b);
        if k - 1 <= m {
          SuffixOfSuffix(core, k - 1, m, x);
        }
      }
    }
  }
}

/**
  Maximal munch: what it means for an input to be completely tokenizable, and
  the scan that computes it.
 */
module Munch {
  import opened Options
  import opened Machine

  /** Bytes t up to k of the input match some token. */
  ghost predicate MatchAt(d: Dfa, s: Word, t: nat, k: nat)
    requires t <= k <= |s|
  {
    d.Matches(s[t..k])
  }

  /** The token beginning at t ends at e: the longest nonempty match there. */
  ghost predicate TokenAt(d: Dfa, s: Word, t: nat, e: nat) {
    && t < e <= |s|
    && MatchAt(d, s, t, e)
    && forall k | e < k <= |s| :: !MatchAt(d, s, t, k)
  }

  /** The boundaries of the greedy tokenization of s from t to its end, t and the end included. */
  ghost predicate Segmentation(d: Dfa, s: Word, t: nat, cuts: seq<nat>) {
    && cuts != [] && cuts[0] == t && cuts[|cuts| - 1] == |s|
    && forall i | 0 <= i < |cuts| - 1 :: TokenAt(d, s, cuts[i], cuts[i + 1])
  }

  ghost predicate TokenizesFrom(d: Dfa, s: Word, t: nat) {
    exists cuts :: Segmentation(d, s, t, cuts)
  }

  /** The input is completely tokenizable. */
  ghost predicate Tokenizes(d: Dfa, s: Word) {
    TokenizesFrom(d, s, 0)
  }

  /** A token of the tokenization of s begins at t. */
  ghost predicate IsStart(d: Dfa, s: Word, t: nat) {
    exists cuts :: Segmentation(d, s, 0, cuts) && t in cuts[..|cuts| - 1]
  }

  /** The token covering byte p of the tokenization of s begins at t. */
  ghost predicate CoveredFrom(d: Dfa, s: Word, p: nat, t: nat) {
    t <= p && IsStart(d, s, t) && exists e :: p < e && TokenAt(d, s, t, e)
  }

  lemma TokenEndUnique(d: Dfa, s: Word, t: nat, e: nat, f: nat)
    requires TokenAt(d, s, t, e) && TokenAt(d, s, t, f)
    ensures e == f
  {
  }

  lemma {:induction false} CutsIncrease(d: Dfa, s: Word, t: nat, cuts: seq<nat>, i: nat, j: nat)
    requires Segmentation(d, s, t, cuts) && i < j < |cuts|
    ensures t <= cuts[i] < cuts[j] <= |s|
    decreases j
  {
    assert TokenAt(d, s, cuts[j - 1], cuts[j]);
    if i < j - 1 {
      CutsIncrease(d, s, t, cuts, i, j - 1);
    } else if 0 < i {
      CutsIncrease(d, s, t, cuts, i - 1, i);
    }
  }

  lemma {:induction false} NothingLeft(d: Dfa, s: Word, t: nat, cuts: seq<nat>)
    requires Segmentation(d, s, t, cuts)
    ensures |cuts| == 1 <==> t == |s|
  {
    if |cuts| > 1 {
      assert TokenAt(d, s, cuts[0], cuts[1]);
    }
  }

  /** The tokenization of an input is unique. */
  lemma {:induction false} SegmentationUnique(d: Dfa, s: Word, t: nat, a: seq<nat>, b: seq<nat>)
    requires Segmentation(d, s, t, a) && Segmentation(d, s, t, b)
    ensures a == b
    decreases |a|
  {
    NothingLeft(d, s, t, a);
    NothingLeft(d, s, t, b);
    if |a| > 1 && |b| > 1 {
      assert TokenAt(d, s, a[0], a[1]) && TokenAt(d, s, b[0], b[1]);
      TokenEndUnique(d, s, t, a[1], b[1]);
      SegmentationTail(d, s, t, a, 1);
      SegmentationTail(d, s, t, b, 1);
      SegmentationUnique(d, s, a[1], a[1..], b[1..]);
      assert a == [a[0]] + a[1..] && b == [b[0]] + b[1..];
    }
  }

  lemma {:induction false} SegmentationTail(d: Dfa, s: Word, t: nat, cuts: seq<nat>, i: nat)
    requires Segmentation(d, s, t, cuts) && i < |cuts|
    ensures Segmentation(d, s, cuts[i], cuts[i..])
  {
    var tail := cuts[i..];
    forall j | 0 <= j < |tail| - 1 ensures TokenAt(d, s, tail[j], tail[j + 1]) {
      assert TokenAt(d, s, cuts[i + j], cuts[i + j + 1]);
    }
  }

  /** A token in front of a tokenizable rest. */
  lemma {:induction false} SegmentationCons(d: Dfa, s: Word, t: nat, cuts: seq<nat>)
    requires cuts != [] && Segmentation(d, s, cuts[0], cuts) && TokenAt(d, s, t, cuts[0])
    ensures Segmentation(d, s, t, [t] + cuts)
  {
    var all := [t] + cuts;
    forall j | 0 <= j < |all| - 1 ensures TokenAt(d, s, all[j], all[j + 1]) {
      if j > 0 {
        assert TokenAt(d, s, cuts[j - 1], cuts[j]);
      }
    }
  }

  /** The token that covers a byte, as an index into the boundaries. */
  lemma {:induction false} CoveringIndex(d: Dfa, s: Word, t: nat, cuts: seq<nat>, p: nat) returns (i: nat)
    requires Segmentation(d, s, t, cuts) && t <= p < |s|
    ensures i < |cuts| - 1 && cuts[i] <= p < cuts[i + 1]
    decreases |cuts|
  {
    if |cuts| > 1 && p < cuts[1] {
      return 0;
    }
    if |cuts| > 1 {
      SegmentationTail(d, s, t, cuts, 1);
      var j := CoveringIndex(d, s, cuts[1], cuts[1..], p);
      return j + 1;
    }
  }

  lemma {:induction false} CutsIncreaseTo(d: Dfa, s: Word, cuts: seq<nat>, j: nat, i: nat)
    requires Segmentation(d, s, 0, cuts) && j <= i < |cuts|
    ensures cuts[j] <= cuts[i]
  {
    if j < i {
      CutsIncrease(d, s, 0, cuts, j, i);
    }
  }

  /** The token covering a byte is the one its index names. */
  lemma {:induction false} CoveredIsIndex(d: Dfa, s: Word, cuts: seq<nat>, i: nat, x: nat, t: nat)
    requires Segmentation(d, s, 0, cuts) && i < |cuts| - 1 && cuts[i] <= x < cuts[i + 1]
    ensures CoveredFrom(d, s, x, t) <==> t == cuts[i]
  {
    assert TokenAt(d, s, cuts[i], cuts[i + 1]);
    assert cuts[i] == cuts[..|cuts| - 1][i];
    if CoveredFrom(d, s, x, t) {
      var other :| Segmentation(d, s, 0, other) && t in other[..|other| - 1];
      SegmentationUnique(d, s, 0, cuts, other);
      var j :| 0 <= j < |cuts| - 1 && cuts[j] == t;
      assert TokenAt(d, s, cuts[j], cuts[j + 1]);
      if j < i {
        CutsIncreaseTo(d, s, cuts, j + 1, i);
      } else if i < j {
        CutsIncreaseTo(d, s, cuts, i + 1, j);
      }
    }
  }

  /** What lies before the token does not change where it ends. */
  lemma {:induction false} TokenAtShift(d: Dfa, r: Word, s: Word, t: nat, e: nat)
    ensures TokenAt(d, r + s, |r| + t, |r| + e) <==> TokenAt(d, s, t, e)
  {
    forall k | t <= k <= |s| ensures MatchAt(d, r + s, |r| + t, |r| + k) <==> MatchAt(d, s, t, k) {
      assert (r + s)[|r| + t..|r| + k] == s[t..k];
    }
    if TokenAt(d, r + s, |r| + t, |r| + e) {
      forall k | e < k <= |s| ensures !MatchAt(d, s, t, k) {
        assert !MatchAt(d, r + s, |r| + t, |r| + k);
      }
    }
    if TokenAt(d, s, t, e) {
      var whole, from := r + s, |r| + t;
      forall k | |r| + e < k <= |whole| ensures !MatchAt(d, whole, from, k) {
        assert !MatchAt(d, s, t, k - |r|);
        assert k == |r| + (k - |r|);
      }
    }
  }

  lemma {:induction false} ReadOneMore(d: Dfa, s: Word, t: nat, k: nat)
    requires t <= k < |s|
    ensures d.Run(d.init, s[t..k + 1]) == match d.Run(d.init, s[t..k]) case None => None case Some(p) => d.Step(p, s[k])
  {
    d.RunSnoc(d.init, s[t..k], s[k]);
    assert s[t..k + 1] == s[t..k] + [s[k]];
  }

  /** A run that has died matches nothing longer. */
  lemma {:induction false} DeadMatchesNothing(d: Dfa, s: Word, t: nat, dead: nat)
    requires t <= dead <= |s| && d.Run(d.init, s[t..dead]) == None
    ensures forall k | dead <= k <= |s| :: !MatchAt(d, s, t, k)
  {
    forall k | dead <= k <= |s| ensures !MatchAt(d, s, t, k) {
      assert s[t..k] == s[t..dead] + s[dead..k];
      d.RunAppend(d.init, s[t..dead], s[dead..k]);
    }
  }

  /** One match attempt from a token boundary, tracking the last accept; the empty match is what remains without one. */
  method Attempt(sim: Simulator, s: Word, from: nat) returns (length: nat, token: Option<Token>)
    requires sim.Valid() && from <= |s|
    ensures length > 0 ==> TokenAt(sim.dfa, s, from, from + length)
    ensures length > 0 ==> token == Some(sim.dfa.TokenOf(s[from..from + length]))
    ensures length == 0 ==> token == sim.empty && forall e :: !TokenAt(sim.dfa, s, from, e)
  {
    var d := sim.dfa;
    var state := d.init;
    length, token := 0, sim.empty;
    assert s[from..from] == [];
    var at := from;
    while at < |s|
      invariant from <= at <= |s| && from + length <= at
      invariant d.Run(d.init, s[from..at]) == Some(state)
      invariant length > 0 ==> MatchAt(d, s, from, from + length)
      invariant length > 0 ==> token == Some(d.TokenOf(s[from..from + length]))
      invariant length == 0 ==> token == sim.empty
      invariant forall k | from + length < k <= at :: !MatchAt(d, s, from, k)
    {
      ReadOneMore(d, s, from, at);
      var next := d.Step(state, s[at]);
      if next == None {
        DeadMatchesNothing(d, s, from, at + 1);
        return;
      }
      state := next.value;
      at := at + 1;
      if d.Accepting(state) {
        length := at - from;
        token := Some(d.accepts[state]);
      }
    }
  }

  /** Tokenizes as far as positive-width matches go, returning the boundaries passed and the tokens between them. */
  method RunAll(sim: Simulator, s: Word) returns (cuts: seq<nat>, tokens: seq<Token>)
    requires sim.Valid()
    ensures cuts != [] && cuts[0] == 0 && |tokens| == |cuts| - 1
    ensures forall i | 0 <= i < |tokens| ::
              TokenAt(sim.dfa, s, cuts[i], cuts[i + 1]) && tokens[i] == sim.dfa.TokenOf(s[cuts[i]..cuts[i + 1]])
    ensures cuts[|cuts| - 1] <= |s|
    ensures cuts[|cuts| - 1] == |s| ==> Segmentation(sim.dfa, s, 0, cuts)
    ensures cuts[|cuts| - 1] < |s| ==> !Tokenizes(sim.dfa, s)
  {
    cuts, tokens := [0], [];
    var offset := 0;
    while offset < |s|
      invariant cuts != [] && cuts[0] == 0 && cuts[|cuts| - 1] == offset <= |s| && |tokens| == |cuts| - 1
      invariant forall i | 0 <= i < |tokens| ::
                  TokenAt(sim.dfa, s, cuts[i], cuts[i + 1]) && tokens[i] == sim.dfa.TokenOf(s[cuts[i]..cuts[i + 1]])
    {
      var length, token := Attempt(sim, s, offset);
      if length == 0 {
        if all :| Segmentation(sim.dfa, s, 0, all) {
          StuckPrefix(sim.dfa, s, all, cuts);
        }
        return;
      }
      offset := offset + length;
      cuts := cuts + [offset];
      tokens := tokens + [token.value];
    }
  }

  /** Greedy boundaries agree with any complete tokenization, so they never stop short of one. */
  lemma {:induction false} StuckPrefix(d: Dfa, s: Word, all: seq<nat>, cuts: seq<nat>)
    requires Segmentation(d, s, 0, all)
    requires cuts != [] && cuts[0] == 0 && forall i | 0 <= i < |cuts| - 1 :: TokenAt(d, s, cuts[i], cuts[i + 1])
    ensures |cuts| <= |all| && cuts[|cuts| - 1] == all[|cuts| - 1]
    ensures cuts[|cuts| - 1] < |s| ==> |cuts| < |all| && TokenAt(d, s, cuts[|cuts| - 1], all[|cuts|])
    decreases |cuts|
  {
    var n := |cuts|;
    if n > 1 {
      var front := cuts[..n - 1];
      assert TokenAt(d, s, cuts[n - 2], cuts[n - 1]);
      forall i | 0 <= i < |front| - 1 ensures TokenAt(d, s, front[i], front[i + 1]) {
        assert TokenAt(d, s, cuts[i], cuts[i + 1]);
      }
      StuckPrefix(d, s, all, front);
    }
    if n < |all| {
      assert TokenAt(d, s, all[n - 1], all[n]);
    }
  }
}

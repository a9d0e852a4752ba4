/**
  Repairs of a preserved tail: what a scan of any repair followed by the tail
  commits inside the tail, and the run it enters the tail with.
 */
module Repairs {
  import opened Options
  import opened Machine
  import opened Suffixes
  import opened Munch

  /** The boundaries the scan commits from t on, up to where no token begins. */
  ghost predicate Commits(d: Dfa, s: Word, t: nat, cuts: seq<nat>) {
    && cuts != [] && cuts[0] == t <= |s|
    && (forall i: nat | i < |cuts| - 1 :: TokenAt(d, s, cuts[i], cuts[i + 1]))
    && Stuck(d, s, Last(cuts))
  }

  /** No token begins there. */
  ghost predicate Stuck(d: Dfa, s: Word, t: nat) {
    forall e: nat :: !TokenAt(d, s, t, e)
  }

  /** Where the committed tokens begin. */
  function Starts(cuts: seq<nat>): seq<nat>
    requires cuts != []
  {
    cuts[..|cuts| - 1]
  }

  /** A run from the state over the tail last accepts at e. */
  ghost predicate RunEnds(d: Dfa, q: State, tail: Word, from: nat, e: nat) {
    && from <= e <= |tail| && d.AcceptsFrom(q, tail[from..e])
    && forall k: nat | e < k <= |tail| :: !d.AcceptsFrom(q, tail[from..k])
  }

  /** Repairs that end inside a token entering the tail: a word to the state entered with, or the empty repair. */
  ghost predicate Enters(d: Dfa, via: Word, tail: Word, first: nat) {
    if via == [] then first == 0
    else d.Run(d.init, via).Some? && RunEnds(d, d.Run(d.init, via).value, tail, 0, first)
  }

  /** The boundaries from n on are the chain's, n further along. */
  ghost predicate SameInside(n: nat, cuts: seq<nat>, chain: seq<nat>)
    requires cuts != [] && chain != []
  {
    && Last(cuts) == n + Last(chain)
    && forall p: nat :: n + p in Starts(cuts) <==> p in Starts(chain)
  }

  lemma {:induction false} TokenIsRun(d: Dfa, s: Word, t: nat, e: nat)
    requires !d.Accepting(d.init) && t <= |s|
    ensures TokenAt(d, s, t, e) <==> RunEnds(d, d.init, s, t, e)
  {
    assert s[t..t] == [];
    if RunEnds(d, d.init, s, t, e) {
      forall k | e < k <= |s| ensures !MatchAt(d, s, t, k) {
        assert !d.AcceptsFrom(d.init, s[t..k]);
      }
    }
    if TokenAt(d, s, t, e) {
      forall k: nat | e < k <= |s| ensures !d.AcceptsFrom(d.init, s[t..k]) {
        assert !MatchAt(d, s, t, k);
      }
    }
  }

  lemma {:induction false} CommitsIncrease(d: Dfa, s: Word, t: nat, cuts: seq<nat>, i: nat, j: nat)
    requires Commits(d, s, t, cuts) && i < j < |cuts|
    ensures t <= cuts[i] < cuts[j] <= |s|
    decreases j
  {
    assert TokenAt(d, s, cuts[j - 1], cuts[j]);
    if i < j - 1 {
      CommitsIncrease(d, s, t, cuts, i, j - 1);
    } else if 0 < i {
      CommitsIncrease(d, s, t, cuts, i - 1, i);
    }
  }

  lemma {:induction false} CommitsTail(d: Dfa, s: Word, t: nat, cuts: seq<nat>, i: nat)
    requires Commits(d, s, t, cuts) && i < |cuts|
    ensures Commits(d, s, cuts[i], cuts[i..])
  {
    var tail := cuts[i..];
    if i > 0 {
      CommitsIncrease(d, s, t, cuts, i - 1, i);
    }
    forall j: nat | j < |tail| - 1 ensures TokenAt(d, s, tail[j], tail[j + 1]) {
      assert TokenAt(d, s, cuts[i + j], cuts[i + j + 1]);
    }
    assert Last(tail) == Last(cuts);
  }

  lemma {:induction false} CommitsCons(d: Dfa, s: Word, t: nat, cuts: seq<nat>)
    requires cuts != [] && Commits(d, s, cuts[0], cuts) && TokenAt(d, s, t, cuts[0])
    ensures Commits(d, s, t, [t] + cuts)
  {
    var all := [t] + cuts;
    forall j: nat | j < |all| - 1 ensures TokenAt(d, s, all[j], all[j + 1]) {
      if j > 0 {
        assert TokenAt(d, s, cuts[j - 1], cuts[j]);
      }
    }
    assert Last(all) == Last(cuts);
  }

  lemma {:induction false} StuckAtOnce(d: Dfa, s: Word, t: nat, cuts: seq<nat>)
    requires Commits(d, s, t, cuts)
    ensures |cuts| == 1 <==> Stuck(d, s, t)
  {
    if |cuts| > 1 {
      assert TokenAt(d, s, cuts[0], cuts[1]);
    }
  }

  /** A scan commits one sequence of boundaries. */
  lemma {:induction false} CommitsUnique(d: Dfa, s: Word, t: nat, a: seq<nat>, b: seq<nat>)
    requires Commits(d, s, t, a) && Commits(d, s, t, b)
    ensures a == b
    decreases |a|
  {
    if |a| > 1 && |b| > 1 {
      assert TokenAt(d, s, a[0], a[1]) && TokenAt(d, s, b[0], b[1]);
      TokenEndUnique(d, s, t, a[1], b[1]);
      CommitsTail(d, s, t, a, 1);
      CommitsTail(d, s, t, b, 1);
      CommitsUnique(d, s, a[1], a[1..], b[1..]);
      assert a == [a[0]] + a[1..] && b == [b[0]] + b[1..];
    } else {
      StuckAtOnce(d, s, t, a);
      StuckAtOnce(d, s, t, b);
    }
  }

  /** An input is completely tokenized exactly where the scan commits it to its end. */
  lemma {:induction false} CommittedToEnd(d: Dfa, s: Word, t: nat, cuts: seq<nat>)
    requires t <= |s|
    ensures Segmentation(d, s, t, cuts) <==> Commits(d, s, t, cuts) && Last(cuts) == |s|
  {
  }

  // ----- what lies before the tail does not change what is committed inside it -----

  function Shifted(chain: seq<nat>, n: nat): seq<nat> {
    seq(|chain|, i requires 0 <= i < |chain| => chain[i] + n)
  }

  lemma {:induction false} ShiftedCommits(d: Dfa, r: Word, tail: Word, t: nat, chain: seq<nat>)
    ensures Commits(d, r + tail, |r| + t, Shifted(chain, |r|)) <==> Commits(d, tail, t, chain)
  {
    var s, shifted := r + tail, Shifted(chain, |r|);
    forall i: nat | i < |chain| - 1
      ensures TokenAt(d, s, shifted[i], shifted[i + 1]) <==> TokenAt(d, tail, chain[i], chain[i + 1])
    {
      TokenAtShift(d, r, tail, chain[i], chain[i + 1]);
    }
    if chain != [] {
      StuckShift(d, r, tail, Last(chain));
    }
    hide TokenAt;
  }

  lemma {:induction false} StuckShift(d: Dfa, r: Word, tail: Word, t: nat)
    ensures Stuck(d, r + tail, |r| + t) <==> Stuck(d, tail, t)
  {
    var s, from := r + tail, |r| + t;
    if Stuck(d, s, from) {
      forall e: nat ensures !TokenAt(d, tail, t, e) {
        TokenAtShift(d, r, tail, t, e);
      }
    }
    if Stuck(d, tail, t) {
      forall e: nat ensures !TokenAt(d, s, from, e) {
        if e >= |r| {
          TokenAtShift(d, r, tail, t, e - |r|);
        }
      }
    }
  }

  /** Boundaries before the tail and then the chain's. */
  lemma {:induction false} ShiftedInside(n: nat, before: seq<nat>, chain: seq<nat>)
    requires chain != [] && forall c | c in before :: c < n
    ensures SameInside(n, before + Shifted(chain, n), chain)
  {
    var cuts := before + Shifted(chain, n);
    assert Starts(cuts) == before + Shifted(Starts(chain), n);
    forall p: nat ensures n + p in Starts(cuts) <==> p in Starts(chain) {
      if p in Starts(chain) {
        var i :| 0 <= i < |Starts(chain)| && Starts(chain)[i] == p;
        assert Shifted(Starts(chain), n)[i] == n + p;
      }
    }
  }

  /** What is read of the tail after a word read into a state. */
  lemma {:induction false} RunThrough(d: Dfa, u: Word, q: State, tail: Word, k: nat)
    requires d.Run(d.init, u) == Some(q) && k <= |tail|
    ensures d.Matches((u + tail)[..|u| + k]) <==> d.AcceptsFrom(q, tail[..k])
  {
    assert (u + tail)[..|u| + k] == u + tail[..k];
    d.RunAppend(d.init, u, tail[..k]);
  }

  /** The token read through the word into the tail ends where the run it enters with last accepts. */
  lemma {:induction false} EnteringToken(d: Dfa, u: Word, q: State, tail: Word, first: nat)
    requires u != [] && d.Run(d.init, u) == Some(q)
    ensures TokenAt(d, u + tail, 0, |u| + first) <==> RunEnds(d, q, tail, 0, first)
  {
    var s := u + tail;
    forall k: nat | k <= |tail| ensures MatchAt(d, s, 0, |u| + k) <==> d.AcceptsFrom(q, tail[0..k]) {
      RunThrough(d, u, q, tail, k);
      assert tail[0..k] == tail[..k] && s[0..|u| + k] == s[..|u| + k];
    }
    hide Dfa.Matches, Dfa.AcceptsFrom, Dfa.Run;
    if TokenAt(d, s, 0, |u| + first) {
      forall k: nat | first < k <= |tail| ensures !d.AcceptsFrom(q, tail[0..k]) {
        assert !MatchAt(d, s, 0, |u| + k);
      }
    }
    if RunEnds(d, q, tail, 0, first) {
      forall k | |u| + first < k <= |s| ensures !MatchAt(d, s, 0, k) {
        assert k == |u| + (k - |u|);
        assert !d.AcceptsFrom(q, tail[0..k - |u|]);
      }
    }
  }

  /** A word that enters the tail is a repair that commits the chain from where its token ends. */
  lemma {:induction false} EntryRepairs(d: Dfa, via: Word, tail: Word, first: nat, chain: seq<nat>)
    returns (cuts: seq<nat>)
    requires Enters(d, via, tail, first) && Commits(d, tail, first, chain)
    ensures Commits(d, via + tail, 0, cuts) && SameInside(|via|, cuts, chain)
  {
    if via == [] {
      cuts := chain;
      assert via + tail == tail;
    } else {
      EnteringToken(d, via, d.Run(d.init, via).value, tail, first);
      ShiftedCommits(d, via, tail, first, chain);
      var shifted := Shifted(chain, |via|);
      assert shifted[0] == |via| + first;
      hide Commits, TokenAt;
      CommitsCons(d, via + tail, 0, shifted);
      cuts := [0] + shifted;
      ShiftedInside(|via|, [0], chain);
    }
  }

  /** The boundary at or before the tail, and the next. */
  lemma {:induction false} CrossingIndex(d: Dfa, s: Word, cuts: seq<nat>, n: nat) returns (i: nat)
    requires Commits(d, s, 0, cuts) && 0 < n <= Last(cuts)
    ensures i < |cuts| - 1 && cuts[i] < n <= cuts[i + 1]
  {
    i := 0;
    while cuts[i + 1] < n
      invariant i < |cuts| - 1 && cuts[i] < n
    {
      i := i + 1;
    }
  }

  /** A repair whose scan gets into the tail enters it with some word, no longer than the repair. */
  lemma {:induction false} RepairEnters(d: Dfa, r: Word, tail: Word, cuts: seq<nat>)
    returns (via: Word, first: nat, chain: seq<nat>)
    requires Commits(d, r + tail, 0, cuts) && Last(cuts) >= |r|
    ensures |via| <= |r| && Enters(d, via, tail, first)
    ensures Commits(d, tail, first, chain) && SameInside(|r|, cuts, chain)
  {
    if r == [] {
      assert r + tail == tail;
      via, first, chain := [], 0, cuts;
    } else {
      var i := CrossingIndex(d, r + tail, cuts, |r|);
      via, first := r[cuts[i]..], cuts[i + 1] - |r|;
      chain := ChainAfter(d, r, tail, cuts, i);
      assert TokenAt(d, r + tail, cuts[i], cuts[i + 1]);
      EntersToken(d, r, tail, cuts[i], cuts[i + 1]);
      hide Commits, SameInside, Enters;
    }
  }

  /** The boundaries from the first inside the tail on are a chain of the tail's. */
  lemma {:induction false} ChainAfter(d: Dfa, r: Word, tail: Word, cuts: seq<nat>, i: nat) returns (chain: seq<nat>)
    requires Commits(d, r + tail, 0, cuts) && i < |cuts| - 1 && cuts[i] < |r| <= cuts[i + 1]
    ensures Commits(d, tail, cuts[i + 1] - |r|, chain) && SameInside(|r|, cuts, chain)
  {
    var s, n := r + tail, |r|;
    CommitsTail(d, s, 0, cuts, i + 1);
    EarlierBefore(d, s, cuts, i, n);
    LaterBounded(d, s, cuts, i + 1, n);
    hide Commits, SameInside, Shifted;
    chain := ShiftedBack(cuts, i + 1, n);
    ShiftedCommits(d, r, tail, cuts[i + 1] - n, chain);
    ShiftedInside(n, cuts[..i + 1], chain);
    assert cuts[..i + 1] + cuts[i + 1..] == cuts;
  }

  lemma {:induction false} ShiftedBack(cuts: seq<nat>, k: nat, n: nat) returns (chain: seq<nat>)
    requires k < |cuts| && forall j | k <= j < |cuts| :: n <= cuts[j]
    ensures Shifted(chain, n) == cuts[k..] && chain != []
  {
    chain := seq(|cuts| - k, j requires 0 <= j < |cuts| - k => cuts[k + j] - n);
  }

  lemma {:induction false} EntersToken(d: Dfa, r: Word, tail: Word, t: nat, e: nat)
    requires t < |r| <= e && TokenAt(d, r + tail, t, e)
    ensures Enters(d, r[t..], tail, e - |r|)
  {
    var s, u := r + tail, r[t..];
    assert s[t..e] == u + tail[..e - |r|];
    d.RunAppend(d.init, u, tail[..e - |r|]);
    assert r[..t] + (u + tail) == s;
    TokenAtShift(d, r[..t], u + tail, 0, e - t);
    EnteringToken(d, u, d.Run(d.init, u).value, tail, e - |r|);
  }

  lemma {:induction false} EarlierBefore(d: Dfa, s: Word, cuts: seq<nat>, i: nat, n: nat)
    requires Commits(d, s, 0, cuts) && i < |cuts| && cuts[i] < n
    ensures var before := cuts[..i + 1]; forall c | c in before :: c < n
  {
    var before := cuts[..i + 1];
    forall c | c in before ensures c < n {
      var j :| 0 <= j <= i && before[j] == c;
      if j < i {
        CommitsIncrease(d, s, 0, cuts, j, i);
      }
    }
  }

  lemma {:induction false} LaterBounded(d: Dfa, s: Word, cuts: seq<nat>, i: nat, n: nat)
    requires Commits(d, s, 0, cuts) && i < |cuts| && n <= cuts[i]
    ensures forall j | i <= j < |cuts| :: n <= cuts[j]
  {
    forall j | i <= j < |cuts| ensures n <= cuts[j] {
      if i < j {
        CommitsIncrease(d, s, 0, cuts, i, j);
      }
    }
  }

  // ----- the maximal run over a tail -----

  /** Where the run from the state over the tail last accepts, if anywhere. */
  method MaximalRun(d: Dfa, q: State, tail: Word, from: nat) returns (last: Option<nat>)
    requires from <= |tail|
    ensures last.Some? ==> RunEnds(d, q, tail, from, last.value)
    ensures last.None? ==> forall k: nat | from <= k <= |tail| :: !d.AcceptsFrom(q, tail[from..k])
  {
    hide RunEnds, Dfa.AcceptsFrom, Dfa.Run;
    last := if d.Accepting(q) then Some(from) else None;
    var current := q;
    RunStarts(d, q, tail, from, last);
    var at := from;
    while at < |tail|
      invariant from <= at <= |tail| && RunSoFar(d, q, tail, from, at, current, last)
    {
      var next := d.Step(current, tail[at]);
      RunFurther(d, q, tail, from, at, current, last);
      if next.None? {
        RunOver(d, q, tail, from, at + 1, last);
        return;
      }
      current, at := next.value, at + 1;
      if d.Accepting(current) {
        last := Some(at);
      }
    }
    RunOver(d, q, tail, from, at, last);
  }

  /** Of what has been read, the run last accepted there. */
  ghost predicate AcceptedBefore(d: Dfa, q: State, tail: Word, from: nat, at: nat, last: Option<nat>)
    requires from <= at <= |tail|
  {
    && (last.Some? ==> from <= last.value <= at && d.AcceptsFrom(q, tail[from..last.value]))
    && forall k: nat | from <= k <= at && (last.None? || last.value < k) :: !d.AcceptsFrom(q, tail[from..k])
  }

  ghost predicate RunSoFar(d: Dfa, q: State, tail: Word, from: nat, at: nat, current: State, last: Option<nat>)
    requires from <= at <= |tail|
  {
    d.Run(q, tail[from..at]) == Some(current) && AcceptedBefore(d, q, tail, from, at, last)
  }

  lemma {:induction false} RunStarts(d: Dfa, q: State, tail: Word, from: nat, last: Option<nat>)
    requires from <= |tail| && last == if d.Accepting(q) then Some(from) else None
    ensures RunSoFar(d, q, tail, from, from, q, last)
  {
    assert tail[from..from] == [];
  }

  lemma {:induction false} RunFurther(
      d: Dfa, q: State, tail: Word, from: nat, at: nat, current: State, last: Option<nat>)
    requires from <= at < |tail| && RunSoFar(d, q, tail, from, at, current, last)
    ensures match d.Step(current, tail[at])
      case None => d.Run(q, tail[from..at + 1]) == None && AcceptedBefore(d, q, tail, from, at + 1, last)
      case Some(next) => RunSoFar(d, q, tail, from, at + 1, next, if d.Accepting(next) then Some(at + 1) else last)
  {
    assert tail[from..at + 1] == tail[from..at] + [tail[at]];
    d.RunSnoc(q, tail[from..at], tail[at]);
    hide Dfa.Run;
  }

  lemma {:induction false} RunOver(d: Dfa, q: State, tail: Word, from: nat, at: nat, last: Option<nat>)
    requires from <= at <= |tail| && AcceptedBefore(d, q, tail, from, at, last)
    requires at == |tail| || d.Run(q, tail[from..at]) == None
    ensures last.Some? ==> RunEnds(d, q, tail, from, last.value)
    ensures last.None? ==> forall k: nat | from <= k <= |tail| :: !d.AcceptsFrom(q, tail[from..k])
  {
    if at < |tail| {
      DeadAfter(d, q, tail, from, at);
    }
    hide Dfa.AcceptsFrom, Dfa.Run;
  }

  lemma {:induction false} DeadAfter(d: Dfa, q: State, tail: Word, from: nat, dead: nat)
    requires from <= dead <= |tail| && d.Run(q, tail[from..dead]) == None
    ensures forall k: nat | dead <= k <= |tail| :: !d.AcceptsFrom(q, tail[from..k])
  {
    forall k: nat | dead <= k <= |tail| ensures !d.AcceptsFrom(q, tail[from..k]) {
      assert tail[from..k] == tail[from..dead] + tail[dead..k];
      d.RunAppend(q, tail[from..dead], tail[dead..k]);
    }
  }
}

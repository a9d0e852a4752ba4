/**
  The verifiers of the maximal-munch scan, of two-mode longest match and of merge
  encoding as a scan in copies takes them: trim, and each string accepted under one marking.
 */
module VerifierScans {
  import opened Options
  import opened Machine
  import opened V = Verifiers
  import opened CopyReading
  import opened CopyAnchors
  import G = GuessedMarking
  import Munch
  import A = ArmedRun
  import T = TrieExploration
  import C = TrieChain
  import M = MergeTower
  import opened ClaimedPasses
  import MergeTable

  // ----- markings -----

  lemma {:induction false} AcceptedMarks(t: Table, bytes: Word, u: seq<bool>)
    requires |bytes| == |u|
    ensures Accepted(t, bytes, u) <==> t.Accepts(Mark(bytes, u))
    ensures G.BytesOf(Mark(bytes, u)) == bytes
  {
    AcceptsRun(t, t.start, Mark(bytes, u));
  }

  /** A verifier that accepts one marking of each string is functional. */
  lemma {:induction false} OneMarkingFunctional(t: Table)
    requires forall s: seq<G.Marked>, r: seq<G.Marked> |
      t.Accepts(s) && t.Accepts(r) && G.BytesOf(s) == G.BytesOf(r) :: s == r
    ensures Functional(t)
  {
    forall bytes: Word, u, v, p: nat, q: nat |
      Reads(t, t.start, bytes, u, p) && p in t.accepting && Reads(t, t.start, bytes, v, q) && q in t.accepting
      ensures u == v
    {
      AcceptedMarks(t, bytes, u);
      AcceptedMarks(t, bytes, v);
      SameMarks(bytes, u, v);
    }
  }

  lemma {:induction false} SameMarks(bytes: Word, u: seq<bool>, v: seq<bool>)
    requires |bytes| == |u| == |v| && Mark(bytes, u) == Mark(bytes, v)
    ensures u == v
  {
    forall i | 0 <= i < |u| ensures u[i] == v[i] {
      assert Mark(bytes, u)[i].closes == u[i] && Mark(bytes, v)[i].closes == v[i];
    }
  }

  /** Markings of one string with the same boundaries, and none after the last byte, are one. */
  lemma {:induction false} SameBoundaries(s: seq<G.Marked>, r: seq<G.Marked>)
    requires s != [] && G.BytesOf(s) == G.BytesOf(r) && |s| == |r| && !s[|s| - 1].closes && !r[|r| - 1].closes
    requires G.Boundaries(A.Ended(s)) == G.Boundaries(A.Ended(r))
    ensures s == r
  {
    G.BoundariesAscend(A.Ended(s));
    G.BoundariesAscend(A.Ended(r));
    forall i: nat | i < |s| ensures s[i] == r[i] {
      assert G.BytesOf(s)[i] == s[i].byte && G.BytesOf(r)[i] == r[i].byte;
      assert i + 1 in G.Boundaries(A.Ended(s)) <==> i + 1 in G.Boundaries(A.Ended(r));
      if i < |s| - 1 {
        assert A.Ended(s)[i] == s[i] && A.Ended(r)[i] == r[i];
      }
    }
  }

  // ----- the armed run -----

  /** The verifier of the maximal-munch scan accepts a string under one marking, its tokens' boundaries. */
  lemma {:induction false} ArmedFunctional(d: Dfa, t: Table)
    requires forall s: seq<G.Marked> :: A.Verifies(d, t, s)
    ensures Functional(t)
  {
    hide A.KindsAre;
    forall s: seq<G.Marked>, r: seq<G.Marked> | t.Accepts(s) && t.Accepts(r) && G.BytesOf(s) == G.BytesOf(r)
      ensures s == r
    {
      assert A.Verifies(d, t, s) && A.Verifies(d, t, r);
      assert |s| == |G.BytesOf(s)| == |r|;
      if s != [] {
        Munch.SegmentationUnique(d, G.BytesOf(s), 0, G.Boundaries(A.Ended(s)), G.Boundaries(A.Ended(r)));
        SameBoundaries(s, r);
      }
    }
    OneMarkingFunctional(t);
  }

  // ----- the trie chain -----

  /** The verifier of two-mode longest match accepts a string under one marking. */
  lemma {:induction false} TrieFunctional(v: C.Vocabulary, t: Table)
    requires forall s: seq<G.Marked> :: t.Accepts(s) <==> T.MarksSegmentation(v, s)
    ensures Functional(t)
  {
    hide C.Segmentation;
    forall s: seq<G.Marked>, r: seq<G.Marked> | t.Accepts(s) && t.Accepts(r) && G.BytesOf(s) == G.BytesOf(r)
      ensures s == r
    {
      assert |s| == |G.BytesOf(s)| == |r|;
      if s != [] {
        C.OneSegmentation(v, G.BytesOf(s), G.Boundaries(A.Ended(s)), G.Boundaries(A.Ended(r)));
        SameBoundaries(s, r);
      }
    }
    OneMarkingFunctional(t);
  }

  // ----- the merge tower -----

  function ClaimedOf(m: G.Marked): Claimed {
    Claimed(m.byte, m.closes)
  }

  function ClaimedAll(s: seq<G.Marked>): (r: seq<Claimed>)
    ensures |r| == |s|
  {
    seq(|s|, i requires 0 <= i < |s| => ClaimedOf(s[i]))
  }

  function MarkedKeys(v: Verifier<Claimed>): set<(nat, G.Marked)> {
    set k | k in v.transitions && k.1.token < 256 :: (k.0, G.Marked(k.1.token, k.1.claim))
  }

  lemma {:induction false} MarkedKey(v: Verifier<Claimed>, q: nat, m: G.Marked)
    ensures (q, m) in MarkedKeys(v) <==> (q, ClaimedOf(m)) in v.transitions
  {
    if (q, ClaimedOf(m)) in v.transitions {
      var k := (q, ClaimedOf(m));
      assert k.1.token < 256 && (k.0, G.Marked(k.1.token, k.1.claim)) == (q, m);
    }
    if (q, m) in MarkedKeys(v) {
      var k :| k in v.transitions && k.1.token < 256 && (k.0, G.Marked(k.1.token, k.1.claim)) == (q, m);
      assert k == (q, ClaimedOf(m));
    }
  }

  /** The verifier over marked bytes of one over claimed bytes. */
  function AsMarked(v: Verifier<Claimed>): Table {
    assert forall k | k in MarkedKeys(v) :: (k.0, ClaimedOf(k.1)) in v.transitions by {
      forall k | k in MarkedKeys(v) ensures (k.0, ClaimedOf(k.1)) in v.transitions {
        assert k == (k.0, k.1);
        MarkedKey(v, k.0, k.1);
      }
    }
    Verifier(
      v.start, map k: (nat, G.Marked) | k in MarkedKeys(v) ::
        v.transitions[(k.0, ClaimedOf(k.1))], v.accepting, map[], map[])
  }

  lemma {:induction false} MarkedStep(v: Verifier<Claimed>, q: nat, m: G.Marked)
    ensures AsMarked(v).Step(q, m) == v.Step(q, ClaimedOf(m))
  {
    MarkedKey(v, q, m);
  }

  lemma {:induction false} MarkedRun(v: Verifier<Claimed>, q: nat, s: seq<G.Marked>)
    ensures RunTo(AsMarked(v), q, s) == RunTo(v, q, ClaimedAll(s))
  {
    hide AsMarked;
    if s != [] {
      var front, m := s[..|s| - 1], s[|s| - 1];
      MarkedRun(v, q, front);
      assert ClaimedAll(s)[..|s| - 1] == ClaimedAll(front);
      var r := RunTo(AsMarked(v), q, front);
      if r.Some? {
        MarkedStep(v, r.value, m);
      }
    }
  }

  lemma {:induction false} MarkedAccepts(v: Verifier<Claimed>, q: nat, s: seq<G.Marked>)
    ensures AsMarked(v).AcceptsFrom(q, s) <==> v.AcceptsFrom(q, ClaimedAll(s))
  {
    AcceptsRun(AsMarked(v), q, s);
    AcceptsRun(v, q, ClaimedAll(s));
    MarkedRun(v, q, s);
  }

  lemma ClaimedBytes(s: seq<G.Marked>)
    ensures IsBytes(ClaimedAll(s)) && BytesOf(ClaimedAll(s)) == G.BytesOf(s)
  {
  }

  /** The tower's verifier over marked bytes accepts every string under exactly one marking. */
  lemma {:induction false} TowerFunctional(table: seq<MergeTable.Merge>, v: Verifier<Claimed>)
    requires MergeTable.PartsEarlier(table)
    requires forall s: seq<Claimed> | IsBytes(s) :: v.Accepts(s) <==> M.MarksEncoded(table, s)
    ensures Functional(AsMarked(v))
  {
    hide AsMarked, M.MarksEncoded;
    forall s: seq<G.Marked>, r: seq<G.Marked> |
      AsMarked(v).Accepts(s) && AsMarked(v).Accepts(r) && G.BytesOf(s) == G.BytesOf(r)
      ensures s == r
    {
      StartKept(v);
      MarkedAccepts(v, v.start, s);
      MarkedAccepts(v, v.start, r);
      ClaimedBytes(s);
      ClaimedBytes(r);
      var marking := M.OneMarking(table, v, G.BytesOf(s));
      SameClaims(s, r);
    }
    OneMarkingFunctional(AsMarked(v));
  }

  lemma StartKept(v: Verifier<Claimed>)
    ensures AsMarked(v).start == v.start && AsMarked(v).accepting == v.accepting
  {
  }

  lemma {:induction false} SameClaims(s: seq<G.Marked>, r: seq<G.Marked>)
    requires ClaimedAll(s) == ClaimedAll(r)
    ensures s == r
  {
    forall i | 0 <= i < |s| ensures s[i] == r[i] {
      assert ClaimedAll(s)[i] == ClaimedOf(s[i]) && ClaimedAll(r)[i] == ClaimedOf(r[i]);
    }
  }

  /** Claimed bytes as marked ones. */
  function MarkedAll(s: seq<Claimed>): (r: seq<G.Marked>)
    requires forall i | 0 <= i < |s| :: s[i].token < 256
    ensures ClaimedAll(r) == s
  {
    seq(|s|, i requires 0 <= i < |s| => G.Marked(s[i].token, s[i].claim))
  }

  lemma {:induction false} RunBytes(v: Verifier<Claimed>, q: nat, s: seq<Claimed>)
    requires (forall k | k in v.transitions :: k.1.token < 256) && RunTo(v, q, s).Some?
    ensures forall i | 0 <= i < |s| :: s[i].token < 256
  {
    if s != [] {
      var front := s[..|s| - 1];
      RunBytes(v, q, front);
      var p := RunTo(v, q, front).value;
      assert (p, s[|s| - 1]) in v.transitions && (p, s[|s| - 1]).1.token < 256;
      forall i | 0 <= i < |s| ensures s[i].token < 256 {
        if i < |front| {
          assert front[i].token < 256;
        }
      }
    }
  }

  /** Trimness carries over to marked bytes. */
  lemma {:induction false} TowerTrim(v: Verifier<Claimed>, n: nat)
    requires IsTrim(v, n) && forall k | k in v.transitions :: k.1.token < 256
    ensures IsTrim(AsMarked(v), n)
  {
    var t := AsMarked(v);
    forall k | k in t.transitions ensures k.0 < n && t.transitions[k] < n && t.transitions[k] != t.start {
      assert k == (k.0, k.1);
      MarkedKey(v, k.0, k.1);
      assert (k.0, ClaimedOf(k.1)).0 < n;
    }
    hide AsMarked;
    StartKept(v);
    forall q: nat | q < n ensures t.Reachable(q) && (q != t.start ==> t.Coaccessible(q)) {
      StateKept(v, n, q);
    }
  }

  lemma {:induction false} StateKept(v: Verifier<Claimed>, n: nat, q: nat)
    requires IsTrim(v, n) && (forall k | k in v.transitions :: k.1.token < 256) && q < n
    ensures AsMarked(v).Reachable(q) && (q != v.start ==> AsMarked(v).Coaccessible(q))
  {
    var t := AsMarked(v);
    assert v.Reachable(q);
    var s :| v.Leads(v.start, s, q);
    LeadsRuns(v, v.start, s, q);
    RunBytes(v, v.start, s);
    MarkedRun(v, v.start, MarkedAll(s));
    LeadsRuns(t, t.start, MarkedAll(s), q);
    if q != v.start {
      assert v.Coaccessible(q);
      var u :| v.AcceptsFrom(q, u);
      AcceptsRun(v, q, u);
      RunBytes(v, q, u);
      MarkedAccepts(v, q, MarkedAll(u));
      assert t.AcceptsFrom(q, MarkedAll(u));
    }
  }
}

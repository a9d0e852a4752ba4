/** Encoding by rewriting, encoding by passes, and which merges ever take part. */
module MergeEncoder {
  import opened Options
  import opened Machine
  import opened MergeTable
  import opened MergePasses

  // ----- rewriting -----

  /** The merge's parts stand at the index. */
  predicate OccursAt(m: Merge, s: seq<Token>, i: nat) {
    i + 1 < |s| && s[i] == m.left && s[i + 1] == m.right
  }

  ghost predicate Occurs(m: Merge, s: seq<Token>) {
    exists i: nat :: OccursAt(m, s, i)
  }

  /** No merge of a rank below the bound applies. */
  ghost predicate Reduced(table: seq<Merge>, bound: nat, s: seq<Token>)
    requires bound <= |table|
  {
    forall r | 0 <= r < bound :: !Occurs(table[r], s)
  }

  function Joined(s: seq<Token>, i: nat, p: Token): seq<Token>
    requires i + 1 < |s|
  {
    s[..i] + [p] + s[i + 2..]
  }

  /** The lowest-ranked merge below the cutoff present anywhere, at its leftmost occurrence. */
  ghost predicate IsNextMerge(table: seq<Merge>, cutoff: nat, s: seq<Token>, i: nat, rank: nat)
    requires cutoff <= |table|
  {
    && rank < cutoff && OccursAt(table[rank], s, i)
    && Reduced(table, rank, s)
    && forall j: nat | j < i :: !OccursAt(table[rank], s, j)
  }

  /** A pass over a sequence its merge does not occur in changes nothing. */
  lemma {:induction false} PassLeaves(m: Merge, p: Token, s: seq<Token>)
    requires !Occurs(m, s)
    ensures Passed(m, p, s) == s
  {
    if s != [] {
      assert !OccursAt(m, s, 0);
      forall i: nat ensures !OccursAt(m, s[1..], i) {
        assert !OccursAt(m, s, i + 1);
      }
      PassLeaves(m, p, s[1..]);
    }
  }

  /** Joining the leftmost occurrence by hand leaves what the pass makes of the sequence alone. */
  lemma {:induction false} PassJoins(m: Merge, p: Token, s: seq<Token>, i: nat)
    requires m.left != p && m.right != p
    requires OccursAt(m, s, i) && forall j: nat | j < i :: !OccursAt(m, s, j)
    ensures Passed(m, p, Joined(s, i, p)) == Passed(m, p, s)
  {
    var next := Joined(s, i, p);
    if i == 0 {
      assert next[1..] == s[2..];
    } else {
      assert !OccursAt(m, s, 0);
      forall j: nat | j < i - 1 ensures !OccursAt(m, s[1..], j) {
        assert !OccursAt(m, s, j + 1);
      }
      PassJoins(m, p, s[1..], i - 1);
      assert next[1..] == Joined(s[1..], i - 1, p);
      assert next[0] == s[0] && (next[1] == s[1] || next[1] == p);
    }
  }

  /** A later merge's product stands in no earlier merge, so joining brings back none of them. */
  lemma {:induction false} JoinStaysReduced(table: seq<Merge>, rank: nat, s: seq<Token>, i: nat)
    requires PartsEarlier(table) && rank < |table| && Reduced(table, rank, s) && i + 1 < |s|
    ensures Reduced(table, rank, Joined(s, i, ProductOf(rank)))
  {
    var next := Joined(s, i, ProductOf(rank));
    forall r | 0 <= r < rank ensures !Occurs(table[r], next) {
      forall j: nat ensures !OccursAt(table[r], next, j) {
        if j + 1 < i {
          assert !OccursAt(table[r], s, j);
        } else if i < j {
          assert !OccursAt(table[r], s, j + 1);
        }
      }
    }
  }

  /** The passes of merges that do not occur change nothing. */
  lemma {:induction false} PassesLeave(table: seq<Merge>, r: nat, upTo: nat, cutoff: nat, s: seq<Token>)
    requires r <= upTo <= cutoff <= |table| && Reduced(table, upTo, s)
    ensures PassesFrom(table, r, cutoff, s) == PassesFrom(table, upTo, cutoff, s)
    decreases upTo - r
  {
    if r < upTo {
      PassLeaves(table[r], ProductOf(r), s);
      PassesLeave(table, r + 1, upTo, cutoff, s);
    }
  }

  /** One rewriting step keeps what the passes from its rank on make of the tokens. */
  lemma {:induction false} StepKeepsPasses(table: seq<Merge>, cutoff: nat, floor: nat, s: seq<Token>, i: nat, rank: nat)
    requires PartsEarlier(table) && floor <= cutoff <= |table| && Reduced(table, floor, s)
    requires IsNextMerge(table, cutoff, s, i, rank)
    ensures floor <= rank
    ensures PassesFrom(table, rank, cutoff, Joined(s, i, ProductOf(rank))) == PassesFrom(table, floor, cutoff, s)
    ensures Reduced(table, rank, Joined(s, i, ProductOf(rank)))
  {
    assert Occurs(table[rank], s);
    PassesLeave(table, floor, rank, cutoff, s);
    PassJoins(table[rank], ProductOf(rank), s, i);
    JoinStaysReduced(table, rank, s, i);
  }

  // ----- the encoder -----

  /** Looks a pair up as the least rank that joins it. */
  ghost predicate Ranks(ranks: map<(Token, Token), nat>, table: seq<Merge>) {
    && (forall k | k in ranks :: ranks[k] < |table| && table[ranks[k]] == Merge(k.0, k.1))
    && (forall r | 0 <= r < |table| :: (table[r].left, table[r].right) in ranks)
  }

  method RanksOf(table: seq<Merge>) returns (ranks: map<(Token, Token), nat>)
    ensures Ranks(ranks, table)
  {
    ranks := map[];
    for rank := 0 to |table|
      invariant forall k | k in ranks :: ranks[k] < rank && table[ranks[k]] == Merge(k.0, k.1)
      invariant forall r | 0 <= r < rank :: (table[r].left, table[r].right) in ranks
    {
      var parts := (table[rank].left, table[rank].right);
      if parts !in ranks {
        ranks := ranks[parts := rank];
      }
    }
  }

  /** An occurrence is a neighbouring pair of the merge's rank. */
  lemma {:induction false} OccurrenceIsPair(
      table: seq<Merge>, ranks: map<(Token, Token), nat>, s: seq<Token>, r: nat, i: nat)
    requires Admissible(table) && Ranks(ranks, table) && r < |table| && i + 1 < |s|
    ensures OccursAt(table[r], s, i) <==> (s[i], s[i + 1]) in ranks && ranks[(s[i], s[i + 1])] == r
  {
    if OccursAt(table[r], s, i) {
      MergedOnce(table, r, ranks[(s[i], s[i + 1])]);
    }
  }

  class Encoder {
    const table: seq<Merge>
    const ranks: map<(Token, Token), nat>

    ghost predicate Valid() {
      Admissible(table) && Ranks(ranks, table)
    }

    /** How many merges lie below a cutoff. */
    ghost function Below(cutoff: nat): nat {
      if cutoff < |table| then cutoff else |table|
    }

    constructor (table: seq<Merge>)
      requires Admissible(table)
      ensures Valid() && this.table == table
    {
      var ranks := RanksOf(table);
      this.table, this.ranks := table, ranks;
    }

    /** The place and rank of the rewriting to do next, lower ranks before earlier places. */
    method NextMerge(tokens: seq<Token>, cutoff: nat) returns (next: Option<(nat, nat)>)
      requires Valid()
      ensures next.Some? ==> IsNextMerge(table, Below(cutoff), tokens, next.value.0, next.value.1)
      ensures next.None? ==> Reduced(table, Below(cutoff), tokens)
    {
      next := None;
      var index := 0;
      while index + 1 < |tokens|
        invariant next.Some? ==>
                    && next.value.0 < index && next.value.1 < Below(cutoff)
                    && OccursAt(table[next.value.1], tokens, next.value.0)
                    && (forall j: nat | j < next.value.0 :: !OccursAt(table[next.value.1], tokens, j))
        invariant forall r, j: nat | 0 <= r < (if next.Some? then next.value.1 else Below(cutoff)) && j < index ::
          !OccursAt(table[r], tokens, j)
      {
        forall r | 0 <= r < |table|
          ensures OccursAt(table[r], tokens, index) <==>
                    (tokens[index], tokens[index + 1]) in ranks && ranks[(tokens[index], tokens[index + 1])] == r
        {
          OccurrenceIsPair(table, ranks, tokens, r, index);
        }
        if (tokens[index], tokens[index + 1]) in ranks {
          var rank := ranks[(tokens[index], tokens[index + 1])];
          if rank < cutoff && (next.None? || rank < next.value.1) {
            next := Some((index, rank));
          }
        }
        index := index + 1;
      }
      assert forall r, j: nat | 0 <= r < (if next.Some? then next.value.1 else Below(cutoff)) ::
        !OccursAt(table[r], tokens, j);
    }

    /**
      Rewrites until nothing below the cutoff can be joined. The outcome agrees
      with the passes, taken rank by rank.
     */
    method Encode(text: Word, cutoff: nat) returns (tokens: seq<Token>)
      requires Valid()
      ensures tokens == Encoded(table, Below(cutoff), text)
      ensures Reduced(table, Below(cutoff), tokens)
    {
      tokens := text;
      ghost var floor, bound := 0, Below(cutoff);
      PassesAfter(table, 0, bound, text);
      var next := NextMerge(tokens, cutoff);
      while next.Some?
        invariant floor <= bound && Reduced(table, floor, tokens)
        invariant PassesFrom(table, floor, bound, tokens) == Encoded(table, bound, text)
        invariant next.Some? ==> IsNextMerge(table, bound, tokens, next.value.0, next.value.1)
        invariant next.None? ==> Reduced(table, bound, tokens)
        decreases |tokens|
      {
        var (index, rank) := next.value;
        StepKeepsPasses(table, bound, floor, tokens, index, rank);
        floor := rank;
        tokens := Joined(tokens, index, ProductOf(rank));
        next := NextMerge(tokens, cutoff);
      }
      PassesLeave(table, floor, bound, bound, tokens);
    }
  }

  // ----- one pass per rank -----

  function PassesOf(table: seq<Merge>, passes: seq<nat>, s: seq<Token>): seq<Token>
    requires forall k | 0 <= k < |passes| :: passes[k] < |table|
  {
    if passes == [] then s
    else
      var last := passes[|passes| - 1];
      Passed(table[last], ProductOf(last), PassesOf(table, passes[..|passes| - 1], s))
  }

  // ----- the merges that ever apply -----

  /** The merge's parts meet in some text the merges before it encode. */
  ghost predicate Applies(table: seq<Merge>, r: nat)
    requires r < |table|
  {
    exists w: Word :: Occurs(table[r], Encoded(table, r, w))
  }

  /** A merge applies somewhere exactly where the merges before it encode its parts' spellings as the two of them. */
  lemma {:induction false} AppliesOnItsParts(table: seq<Merge>, r: nat)
    requires PartsEarlier(table) && r < |table|
    ensures Applies(table, r) <==> CanonicalPair(table, r, table[r].left, table[r].right)
  {
    var m := table[r];
    if Applies(table, r) {
      var w: Word :| Occurs(m, Encoded(table, r, w));
      var s := Encoded(table, r, w);
      var i: nat :| OccursAt(m, s, i);
      EncodedIsCanonical(table, r, w);
      StretchCanonical(table, r, s, i, i + 2);
      assert s[i..i + 2] == [m.left, m.right];
    }
    if CanonicalPair(table, r, m.left, m.right) {
      var w := SpellingOf(table, [m.left, m.right]);
      assert OccursAt(m, Encoded(table, r, w), 0);
    }
  }

  /** A merge that never applies changes no encoding. */
  lemma {:induction false} UselessLeaves(table: seq<Merge>, r: nat, w: Word)
    requires r < |table| && !Applies(table, r)
    ensures Encoded(table, r + 1, w) == Encoded(table, r, w)
  {
    PassLeaves(table[r], ProductOf(r), Encoded(table, r, w));
  }

  /** Where every merge left out of a list of ascending ranks never applies, the passes of the list are the encoding. */
  ghost predicate KeepsUseful(table: seq<Merge>, passes: seq<nat>, upTo: nat)
    requires upTo <= |table|
  {
    && (forall k | 0 <= k < |passes| :: passes[k] < upTo)
    && (forall j, k | 0 <= j < k < |passes| :: passes[j] < passes[k])
    && (forall r | 0 <= r < upTo && Applies(table, r) :: r in passes)
  }

  lemma {:induction false} UsefulPassesEncode(table: seq<Merge>, passes: seq<nat>, upTo: nat, w: Word)
    requires upTo <= |table| && KeepsUseful(table, passes, upTo)
    ensures PassesOf(table, passes, w) == Encoded(table, upTo, w)
  {
    if upTo > 0 {
      var last := upTo - 1;
      if passes != [] && passes[|passes| - 1] == last {
        var front := passes[..|passes| - 1];
        forall r | 0 <= r < last && Applies(table, r) ensures r in front {
          var k :| 0 <= k < |passes| && passes[k] == r;
          assert front[k] == r;
        }
        UsefulPassesEncode(table, front, last, w);
      } else {
        assert last !in passes;
        UselessLeaves(table, last, w);
        UsefulPassesEncode(table, passes, last, w);
      }
    }
  }

  /** One left-to-right pass of a merge, joining every occurrence of its parts it comes to. */
  method Pass(m: Merge, p: Token, tokens: seq<Token>) returns (joined: seq<Token>)
    ensures joined == Passed(m, p, tokens)
  {
    joined := [];
    var index := 0;
    while index < |tokens|
      invariant index <= |tokens|
      invariant joined + Passed(m, p, tokens[index..]) == Passed(m, p, tokens)
    {
      ghost var rest := tokens[index..];
      if index + 1 < |tokens| && tokens[index] == m.left && tokens[index + 1] == m.right {
        assert rest[2..] == tokens[index + 2..];
        assert joined + [p] + Passed(m, p, rest[2..]) == joined + ([p] + Passed(m, p, rest[2..]));
        joined := joined + [p];
        index := index + 2;
      } else {
        assert rest[1..] == tokens[index + 1..];
        assert joined + [rest[0]] + Passed(m, p, rest[1..]) == joined + ([rest[0]] + Passed(m, p, rest[1..]));
        joined := joined + [tokens[index]];
        index := index + 1;
      }
    }
  }

  /**
    Encodes by one pass for each of the ascending ranks given: the encoder's own
    encoding, where every rank left out is of a merge that never applies.
   */
  method EncodeByPasses(table: seq<Merge>, passes: seq<nat>, ghost upTo: nat, text: Word) returns (tokens: seq<Token>)
    requires upTo <= |table| && KeepsUseful(table, passes, upTo)
    ensures tokens == Encoded(table, upTo, text)
  {
    tokens := text;
    for at := 0 to |passes|
      invariant tokens == PassesOf(table, passes[..at], text)
    {
      hide Passed;
      tokens := Pass(table[passes[at]], ProductOf(passes[at]), tokens);
      assert passes[..at + 1][..at] == passes[..at];
    }
    assert passes[..|passes|] == passes;
    UsefulPassesEncode(table, passes, upTo, text);
  }

  /** One flag per rank for the merges some text uses, and the least of those that doubles a token. */
  datatype Stages = Stages(useful: seq<bool>, selfPair: Option<nat>)

  /** Each token's entry says whether it is canonical under the merges below the rank. */
  ghost predicate TellsCanonical(table: seq<Merge>, rank: nat, canonical: seq<bool>)
    requires PartsEarlier(table) && rank <= |table|
  {
    |canonical| == ProductOf(rank) && forall t: nat | t < ProductOf(rank) ::
      canonical[t] <==> Canonical(table, rank, [t])
  }

  ghost predicate TellsUseful(table: seq<Merge>, useful: seq<bool>) {
    |useful| <= |table| && forall r | 0 <= r < |useful| :: useful[r] <==> Applies(table, r)
  }

  /** A merge of equal parts that applies somewhere. */
  ghost predicate IsSelfPair(table: seq<Merge>, r: nat) {
    r < |table| && table[r].left == table[r].right && Applies(table, r)
  }

  /** The least such merge below the rank, if any. */
  ghost predicate TellsSelfPair(table: seq<Merge>, rank: nat, selfPair: Option<nat>) {
    match selfPair
    case Some(p) => IsSelfPair(table, p) && forall r: nat | r < p :: !IsSelfPair(table, r)
    case None => forall r: nat | r < rank :: !IsSelfPair(table, r)
  }

  lemma UsefulMore(table: seq<Merge>, useful: seq<bool>, meets: bool)
    requires |useful| < |table| && TellsUseful(table, useful) && (meets <==> Applies(table, |useful|))
    ensures TellsUseful(table, useful + [meets])
  {
  }

  lemma {:induction false} SelfPairMore(table: seq<Merge>, rank: nat, selfPair: Option<nat>, meets: bool)
    requires rank < |table| && TellsSelfPair(table, rank, selfPair) && (meets <==> Applies(table, rank))
    ensures var here := meets && table[rank].left == table[rank].right && selfPair.None?;
            TellsSelfPair(table, rank + 1, if here then Some(rank) else selfPair)
  {
    hide Applies;
  }

  lemma {:induction false} BytesTold(table: seq<Merge>)
    requires PartsEarlier(table)
    ensures TellsCanonical(table, 0, seq(BYTES, _ => true))
  {
    forall t: nat | t < BYTES ensures Canonical(table, 0, [t]) {
      BytesCanonical(table, [t]);
    }
  }

  lemma {:induction false} ToldMore(table: seq<Merge>, rank: nat, canonical: seq<bool>, meets: bool)
    requires PartsEarlier(table) && rank < |table| && TellsCanonical(table, rank, canonical)
    requires meets <==> CanonicalPair(table, rank, table[rank].left, table[rank].right)
    ensures TellsCanonical(table, rank + 1, canonical + [meets])
  {
    forall t: nat | t < ProductOf(rank + 1)
      ensures Canonical(table, rank + 1, [t]) <==> (canonical + [meets])[t]
    {
      TokenStep(table, rank, t);
    }
  }

  /** The test of the two parts' spelling, made only where both parts are canonical, is whether they are neighbours. */
  lemma {:induction false} MeetsIsPair(table: seq<Merge>, rank: nat, meets: bool)
    requires PartsEarlier(table) && rank < |table|
    requires var m := table[rank];
             meets <==>
               && Canonical(table, rank, [m.left]) && Canonical(table, rank, [m.right])
               && Encoded(table, rank, Spelling(table, m.left) + Spelling(table, m.right)) == [m.left, m.right]
    ensures meets <==> CanonicalPair(table, rank, table[rank].left, table[rank].right)
  {
    var m := table[rank];
    SpellingOfTwo(table, m.left, m.right);
    if CanonicalPair(table, rank, m.left, m.right) {
      PairIsTokens(table, rank, m.left, m.right);
    }
  }

  /**
    Whether the merges before a rank encode its parts' spellings as the two of them: whether its
    merge applies at all.
   */
  method Meets(encoder: Encoder, canonical: seq<bool>, rank: nat) returns (meets: bool)
    requires encoder.Valid() && rank < |encoder.table| && TellsCanonical(encoder.table, rank, canonical)
    ensures meets <==> CanonicalPair(encoder.table, rank, encoder.table[rank].left, encoder.table[rank].right)
    ensures meets <==> Applies(encoder.table, rank)
  {
    hide Canonical, Applies, Spelling, Encoded;
    var m := encoder.table[rank];
    meets := false;
    if canonical[m.left] && canonical[m.right] {
      var encoding := encoder.Encode(Spelling(encoder.table, m.left) + Spelling(encoder.table, m.right), rank);
      meets := encoding == [m.left, m.right];
    }
    MeetsIsPair(encoder.table, rank, meets);
    AppliesOnItsParts(encoder.table, rank);
  }

  /**
    Flags the ranks that ever take part in an encoding. A rank does exactly if the
    lower ranks leave its parts, spelled side by side, alone.
   */
  method StagesOf(encoder: Encoder) returns (stages: Stages)
    requires encoder.Valid()
    ensures |stages.useful| == |encoder.table| && TellsUseful(encoder.table, stages.useful)
    ensures TellsSelfPair(encoder.table, |encoder.table|, stages.selfPair)
  {
    var table := encoder.table;
    var canonical := seq(BYTES, _ => true);
    var useful: seq<bool> := [];
    var selfPair: Option<nat> := None;
    BytesTold(table);
    for rank := 0 to |table|
      invariant TellsCanonical(table, rank, canonical)
      invariant |useful| == rank && TellsUseful(table, useful)
      invariant TellsSelfPair(table, rank, selfPair)
    {
      hide Canonical, Applies, TellsCanonical, TellsUseful, TellsSelfPair;
      var meets := Meets(encoder, canonical, rank);
      ToldMore(table, rank, canonical, meets);
      UsefulMore(table, useful, meets);
      SelfPairMore(table, rank, selfPair, meets);
      if meets && table[rank].left == table[rank].right && selfPair.None? {
        selfPair := Some(rank);
      }
      useful, canonical := useful + [meets], canonical + [meets];
    }
    stages := Stages(useful, selfPair);
  }

  // ----- the passes before the first self-pair -----

  /** The merges with unequal parts that apply somewhere, ascending. */
  ghost predicate AreUseful(table: seq<Merge>, passes: seq<nat>, upTo: nat)
    requires upTo <= |table|
  {
    KeepsUseful(table, passes, upTo) && forall r | r in passes :: Applies(table, r) && table[r].left != table[r].right
  }

  lemma {:induction false} UsefulLonger(table: seq<Merge>, passes: seq<nat>, upTo: nat)
    requires upTo < |table| && AreUseful(table, passes, upTo)
    requires Applies(table, upTo) && table[upTo].left != table[upTo].right
    ensures AreUseful(table, passes + [upTo], upTo + 1)
  {
    hide Applies;
    forall r | 0 <= r < upTo + 1 && Applies(table, r) ensures r in passes + [upTo] {
      assert r != upTo ==> r in passes;
    }
  }

  lemma {:induction false} UsefulNoMore(table: seq<Merge>, passes: seq<nat>, upTo: nat)
    requires upTo < |table| && AreUseful(table, passes, upTo) && !Applies(table, upTo)
    ensures AreUseful(table, passes, upTo + 1)
  {
    hide Applies;
  }

  lemma {:induction false} NoSelfPairBefore(table: seq<Merge>, passes: seq<nat>, upTo: nat, r: nat)
    requires upTo <= |table| && AreUseful(table, passes, upTo) && r < upTo
    ensures !IsSelfPair(table, r)
  {
    hide Applies;
  }

  /** Whether the passes so far encode the two canonical parts as themselves: whether the merge applies at all. */
  method MeetsByPasses(table: seq<Merge>, passes: seq<nat>, canonical: seq<bool>, rank: nat) returns (meets: bool)
    requires PartsEarlier(table) && rank < |table| && TellsCanonical(table, rank, canonical)
    requires AreUseful(table, passes, rank)
    ensures meets <==> CanonicalPair(table, rank, table[rank].left, table[rank].right)
    ensures meets <==> Applies(table, rank)
  {
    hide Canonical, Applies, Spelling, Encoded;
    var m := table[rank];
    meets := false;
    if canonical[m.left] && canonical[m.right] {
      var encoding := EncodeByPasses(table, passes, rank, Spelling(table, m.left) + Spelling(table, m.right));
      meets := encoding == [m.left, m.right];
    }
    MeetsIsPair(table, rank, meets);
    AppliesOnItsParts(table, rank);
  }

  /**
    The ranks of the merges that apply, up to the first that applies with equal
    parts; each is tested with the passes of those before it.
   */
  method UsefulPasses(table: seq<Merge>) returns (passes: seq<nat>, selfPair: Option<nat>)
    requires PartsEarlier(table)
    ensures TellsSelfPair(table, |table|, selfPair)
    ensures selfPair.Some? ==> AreUseful(table, passes, selfPair.value)
    ensures selfPair.None? ==> AreUseful(table, passes, |table|)
  {
    var canonical := seq(BYTES, _ => true);
    passes := [];
    BytesTold(table);
    hide Canonical, Applies, TellsCanonical;
    for rank := 0 to |table|
      invariant TellsCanonical(table, rank, canonical) && AreUseful(table, passes, rank)
    {
      hide KeepsUseful;
      var meets := MeetsByPasses(table, passes, canonical, rank);
      ToldMore(table, rank, canonical, meets);
      canonical := canonical + [meets];
      if meets && table[rank].left == table[rank].right {
        FirstSelfPair(table, passes, rank);
        return passes, Some(rank);
      }
      if meets {
        UsefulLonger(table, passes, rank);
        passes := passes + [rank];
      } else {
        UsefulNoMore(table, passes, rank);
      }
    }
    selfPair := None;
    NoSelfPair(table, passes);
  }

  lemma {:induction false} FirstSelfPair(table: seq<Merge>, passes: seq<nat>, rank: nat)
    requires rank < |table| && AreUseful(table, passes, rank) && IsSelfPair(table, rank)
    ensures TellsSelfPair(table, |table|, Some(rank))
  {
    hide AreUseful, IsSelfPair;
    forall r: nat | r < rank ensures !IsSelfPair(table, r) {
      NoSelfPairBefore(table, passes, rank, r);
    }
  }

  lemma {:induction false} NoSelfPair(table: seq<Merge>, passes: seq<nat>)
    requires AreUseful(table, passes, |table|)
    ensures TellsSelfPair(table, |table|, None)
  {
    hide AreUseful, IsSelfPair;
    forall r: nat | r < |table| ensures !IsSelfPair(table, r) {
      NoSelfPairBefore(table, passes, |table|, r);
    }
  }
}

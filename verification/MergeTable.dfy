/** Byte-pair merge tables: tokens, their spellings, and the resolution of spelled merges to tokens. */
module MergeTable {
  import opened Machine

  /** One merge: the two tokens it joins. The product of rank r is the token r past the bytes. */
  datatype Merge = Merge(left: Token, right: Token)

  const BYTES: nat := 256

  function ProductOf(rank: nat): Token {
    BYTES + rank
  }

  /** No merge names a token that is not made yet. */
  predicate PartsEarlier(table: seq<Merge>) {
    forall r | 0 <= r < |table| :: table[r].left < ProductOf(r) && table[r].right < ProductOf(r)
  }

  function Spelling(table: seq<Merge>, t: Token): Word
    requires PartsEarlier(table) && t < ProductOf(|table|)
    decreases t
  {
    if t < BYTES then [t]
    else Spelling(table, table[t - BYTES].left) + Spelling(table, table[t - BYTES].right)
  }

  lemma {:induction false} SpelledNonempty(table: seq<Merge>, t: Token)
    requires PartsEarlier(table) && t < ProductOf(|table|)
    ensures Spelling(table, t) != []
    decreases t
  {
    if t >= BYTES {
      SpelledNonempty(table, table[t - BYTES].left);
    }
  }

  /** No two tokens are spelled alike. */
  ghost predicate SpelledOnce(table: seq<Merge>)
    requires PartsEarlier(table)
  {
    forall t: nat, u: nat | t < u < ProductOf(|table|) :: Spelling(table, t) != Spelling(table, u)
  }

  ghost predicate Admissible(table: seq<Merge>) {
    PartsEarlier(table) && SpelledOnce(table)
  }

  /** Later merges leave the earlier tokens' spellings alone. */
  lemma {:induction false} SpellingInMore(table: seq<Merge>, more: seq<Merge>, t: Token)
    requires PartsEarlier(table) && PartsEarlier(more) && table <= more && t < ProductOf(|table|)
    ensures Spelling(more, t) == Spelling(table, t)
    decreases t
  {
    if t >= BYTES {
      SpellingInMore(table, more, table[t - BYTES].left);
      SpellingInMore(table, more, table[t - BYTES].right);
    }
  }

  lemma SpellingOfProduct(table: seq<Merge>, r: nat)
    requires PartsEarlier(table) && r < |table|
    ensures Spelling(table, ProductOf(r)) == Spelling(table, table[r].left) + Spelling(table, table[r].right)
  {
  }

  lemma {:induction false} EarlierMore(table: seq<Merge>, m: Merge)
    requires PartsEarlier(table) && m.left < ProductOf(|table|) && m.right < ProductOf(|table|)
    ensures PartsEarlier(table + [m])
    ensures forall t: nat | t < ProductOf(|table|) :: Spelling(table + [m], t) == Spelling(table, t)
    ensures Spelling(table + [m], ProductOf(|table|)) == Spelling(table, m.left) + Spelling(table, m.right)
  {
    assert forall r | 0 <= r < |table| :: (table + [m])[r] == table[r];
    forall t: nat | t < ProductOf(|table|) ensures Spelling(table + [m], t) == Spelling(table, t) {
      SpellingInMore(table, table + [m], t);
    }
    SpellingOfProduct(table + [m], |table|);
  }

  lemma {:induction false} SpelledApart(table: seq<Merge>, t: Token, u: Token)
    requires Admissible(table) && t < ProductOf(|table|) && u < ProductOf(|table|)
    ensures t == u <==> Spelling(table, t) == Spelling(table, u)
  {
    hide Spelling;
  }

  /** A product is made by one merge only. */
  lemma {:induction false} MergedOnce(table: seq<Merge>, r: nat, q: nat)
    requires Admissible(table) && r < |table| && q < |table| && table[r] == table[q]
    ensures r == q
  {
    SpellingOfProduct(table, r);
    SpellingOfProduct(table, q);
    SpelledApart(table, ProductOf(r), ProductOf(q));
  }

  // ----- resolving spelled merges -----

  /** A merge as a caller gives it, its parts spelled. */
  datatype Spelled = Spelled(left: Word, right: Word)

  datatype Resolution =
    | Resolved(table: seq<Merge>)
    | Missing(rank: nat)
    | Recreates(rank: nat)

  /** What the bytes and the merges before a rank are spelled as. */
  ghost predicate Carried(merges: seq<Spelled>, rank: nat, w: Word)
    requires rank <= |merges|
  {
    |w| == 1 || exists q :: 0 <= q < rank && merges[q].left + merges[q].right == w
  }

  /** The merge at a rank joins carried parts into a product not carried yet. */
  ghost predicate Fits(merges: seq<Spelled>, rank: nat)
    requires rank < |merges|
  {
    && Carried(merges, rank, merges[rank].left)
    && Carried(merges, rank, merges[rank].right)
    && !Carried(merges, rank, merges[rank].left + merges[rank].right)
  }

  /** The table resolves the merges: each rank's parts are spelled as the caller spells them. */
  ghost predicate Resolves(merges: seq<Spelled>, table: seq<Merge>) {
    && |table| == |merges| && PartsEarlier(table)
    && forall r | 0 <= r < |merges| ::
         Spelling(table, table[r].left) == merges[r].left && Spelling(table, table[r].right) == merges[r].right
  }

  /** Every spelling indexed is the indexed token's. */
  ghost predicate IndexesRightly(index: map<Word, Token>, table: seq<Merge>)
    requires PartsEarlier(table)
  {
    forall w | w in index :: index[w] < ProductOf(|table|) && Spelling(table, index[w]) == w
  }

  /** Every token is indexed by its spelling. */
  ghost predicate IndexesEvery(index: map<Word, Token>, table: seq<Merge>)
    requires PartsEarlier(table)
  {
    forall t: nat | t < ProductOf(|table|) :: Spelling(table, t) in index && index[Spelling(table, t)] == t
  }

  /** The tokens found so far by spelling: each byte and each product, once. */
  ghost predicate Indexes(index: map<Word, Token>, merges: seq<Spelled>, table: seq<Merge>)
    requires PartsEarlier(table) && |table| <= |merges|
  {
    IndexesRightly(index, table) && IndexesEvery(index, table) && forall w ::
      w in index <==> Carried(merges, |table|, w)
  }

  lemma {:induction false} IndexesSpelledOnce(index: map<Word, Token>, merges: seq<Spelled>, table: seq<Merge>)
    requires PartsEarlier(table) && |table| <= |merges| && Indexes(index, merges, table)
    ensures SpelledOnce(table)
  {
    forall t: nat, u: nat | t < u < ProductOf(|table|) ensures Spelling(table, t) != Spelling(table, u) {
      assert index[Spelling(table, t)] == t && index[Spelling(table, u)] == u;
    }
  }

  /** The merge after a table's is carried once it is made, and nothing else is new. */
  lemma {:induction false} CarriedMore(merges: seq<Spelled>, rank: nat, w: Word)
    requires rank < |merges|
    ensures Carried(merges, rank + 1, w) <==> Carried(merges, rank, w) || merges[rank].left + merges[rank].right == w
  {
    if q :| 0 <= q < rank + 1 && merges[q].left + merges[q].right == w {
      assert q == rank || Carried(merges, rank, w);
    }
  }

  lemma {:induction false} RightlyMore(index: map<Word, Token>, table: seq<Merge>, m: Merge, w: Word)
    requires PartsEarlier(table) && m.left < ProductOf(|table|) && m.right < ProductOf(|table|)
    requires IndexesRightly(index, table) && IndexesEvery(index, table) && w !in index
    requires w == Spelling(table, m.left) + Spelling(table, m.right)
    ensures PartsEarlier(table + [m])
    ensures IndexesRightly(index[w := ProductOf(|table|)], table + [m])
    ensures IndexesEvery(index[w := ProductOf(|table|)], table + [m])
  {
    EarlierMore(table, m);
    hide Spelling;
    var wider, more := index[w := ProductOf(|table|)], table + [m];
    forall t: nat | t < ProductOf(|more|) ensures Spelling(more, t) in wider && wider[Spelling(more, t)] == t {
      if t < ProductOf(|table|) {
        assert Spelling(table, t) in index;
      } else {
        assert t == ProductOf(|table|);
      }
    }
  }

  /** One merge more, found fitting, keeps the index and the table in step. */
  lemma {:induction false} IndexMore(index: map<Word, Token>, merges: seq<Spelled>, table: seq<Merge>, m: Merge)
    requires PartsEarlier(table) && |table| < |merges| && Indexes(index, merges, table)
    requires m.left < ProductOf(|table|) && m.right < ProductOf(|table|)
    requires Spelling(table, m.left) == merges[|table|].left && Spelling(table, m.right) == merges[|table|].right
    requires merges[|table|].left + merges[|table|].right !in index
    ensures PartsEarlier(table + [m])
    ensures Indexes(index[merges[|table|].left + merges[|table|].right := ProductOf(|table|)], merges, table + [m])
  {
    var rank, w := |table|, merges[|table|].left + merges[|table|].right;
    var wider := index[w := ProductOf(rank)];
    RightlyMore(index, table, m, w);
    hide Spelling, IndexesRightly, IndexesEvery;
    forall v ensures v in wider <==> Carried(merges, rank + 1, v) {
      CarriedMore(merges, rank, v);
    }
  }

  lemma {:induction false} ResolvesMore(merges: seq<Spelled>, table: seq<Merge>, m: Merge)
    requires |table| < |merges| && Resolves(merges[..|table|], table)
    requires m.left < ProductOf(|table|) && m.right < ProductOf(|table|)
    requires Spelling(table, m.left) == merges[|table|].left && Spelling(table, m.right) == merges[|table|].right
    ensures Resolves(merges[..|table| + 1], table + [m])
  {
    EarlierMore(table, m);
    hide Spelling;
    var sooner, now, more := merges[..|table|], merges[..|table| + 1], table + [m];
    forall r | 0 <= r < |more|
      ensures Spelling(more, more[r].left) == now[r].left && Spelling(more, more[r].right) == now[r].right
    {
      if r < |table| {
        assert Spelling(table, table[r].left) == sooner[r].left && sooner[r] == now[r];
      }
    }
  }

  /** The bytes alone. */
  method ByteIndex() returns (index: map<Word, Token>)
    ensures forall w :: w in index <==> |w| == 1
    ensures forall b: Byte :: [b] in index && index[[b]] == b
  {
    index := map[];
    for value: int := 0 to 256
      invariant forall w :: w in index <==> |w| == 1 && w[0] < value
      invariant forall b: Byte | b < value :: [b] in index && index[[b]] == b
    {
      var b: Byte := value;
      index := index[[b] := b];
      forall w: Word | |w| == 1 ensures w in index <==> w[0] < value + 1 {
        assert w == [w[0]];
      }
    }
  }

  lemma {:induction false} BytesIndexed(index: map<Word, Token>, merges: seq<Spelled>)
    requires forall w :: w in index <==> |w| == 1
    requires forall b: Byte :: [b] in index && index[[b]] == b
    ensures Indexes(index, merges, [])
  {
    forall w | w in index ensures index[w] < BYTES && Spelling([], index[w]) == w {
      assert w == [w[0]];
    }
    forall t: nat | t < ProductOf(0) ensures Spelling([], t) in index && index[Spelling([], t)] == t {
      var b: Byte := t;
      assert Spelling([], t) == [b];
    }
  }

  /** The first merge that does not fit is at the rank. */
  ghost predicate FirstMisfit(merges: seq<Spelled>, rank: nat) {
    rank < |merges| && !Fits(merges, rank) && forall r | 0 <= r < rank :: Fits(merges, r)
  }

  ghost predicate PartsCarried(merges: seq<Spelled>, rank: nat)
    requires rank < |merges|
  {
    Carried(merges, rank, merges[rank].left) && Carried(merges, rank, merges[rank].right)
  }

  /**
    Turns spelled merges into token pairs, or reports the lowest rank that cannot
    be turned and the reason.
   */
  method TableOf(merges: seq<Spelled>) returns (resolution: Resolution)
    ensures resolution.Resolved? ==>
              && Resolves(merges, resolution.table) && Admissible(resolution.table)
              && forall r | 0 <= r < |merges| :: Fits(merges, r)
    ensures resolution.Missing? ==> FirstMisfit(merges, resolution.rank) && !PartsCarried(merges, resolution.rank)
    ensures resolution.Recreates? ==> FirstMisfit(merges, resolution.rank) && PartsCarried(merges, resolution.rank)
  {
    hide Carried, Spelling;
    var index: map<Word, Token> := ByteIndex();
    var table: seq<Merge> := [];
    BytesIndexed(index, merges);
    for rank := 0 to |merges|
      invariant |table| == rank && PartsEarlier(table)
      invariant Indexes(index, merges, table)
      invariant Resolves(merges[..rank], table)
      invariant forall r | 0 <= r < rank :: Fits(merges, r)
    {
      var spelled := merges[rank];
      if spelled.left !in index || spelled.right !in index {
        return Missing(rank);
      }
      var m := Merge(index[spelled.left], index[spelled.right]);
      var spelling := spelled.left + spelled.right;
      if spelling in index {
        return Recreates(rank);
      }
      IndexMore(index, merges, table, m);
      ResolvesMore(merges, table, m);
      table, index := table + [m], index[spelling := ProductOf(rank)];
    }
    IndexesSpelledOnce(index, merges, table);
    assert merges[..|merges|] == merges;
    resolution := Resolved(table);
  }
}

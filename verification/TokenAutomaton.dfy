/** The token automaton of a merge table: one state copied per merge that applies, read lazily. */
module TokenAutomaton {
  import opened Options
  import opened Machine
  import opened MergeTable
  import opened MergePasses

  /** A state: what it was copied from, the first token its copy does not know, and the tokens it no longer reads. */
  datatype Copy = Copy(parent: nat, birth: Token, removed: seq<Token>)

  /** A token: its spelling, the left part of a product, and the state it enters where it is canonical. */
  datatype Entry = Entry(spelling: Word, left: Option<Token>, target: Option<nat>)

  const BASE: nat := 0

  /** Every copy comes after its parent and knows the tokens before its birth only. */
  ghost predicate Copies(states: seq<Copy>, known: Token) {
    states != [] && forall q | 1 <= q < |states| :: states[q].parent < q && BYTES < states[q].birth <= known
  }

  /** What reading a token from a state finds: later products stand for their left parts, removals for refusals. */
  ghost predicate Walks(table: seq<Merge>, states: seq<Copy>, q: nat, t: Token)
    requires PartsEarlier(table) && Copies(states, ProductOf(|table|)) && q < |states| && t < ProductOf(|table|)
    decreases q, t
  {
    if q == BASE then true
    else if t >= states[q].birth then Walks(table, states, q, table[t - BYTES].left)
    else t !in states[q].removed && Walks(table, states, states[q].parent, t)
  }

  lemma {:induction false} WalksInMore(table: seq<Merge>, states: seq<Copy>, more: seq<Copy>, q: nat, t: Token)
    requires PartsEarlier(table) && Copies(states, ProductOf(|table|)) && Copies(more, ProductOf(|table|))
    requires states <= more && q < |states| && t < ProductOf(|table|)
    ensures Walks(table, more, q, t) <==> Walks(table, states, q, t)
    decreases q, t
  {
    if q != BASE {
      if t >= states[q].birth {
        WalksInMore(table, states, more, q, table[t - BYTES].left);
      } else {
        WalksInMore(table, states, more, states[q].parent, t);
      }
    }
  }

  /** A token no state knows yet reads as its left part. */
  lemma NewbornWalks(table: seq<Merge>, r: nat, states: seq<Copy>, q: nat)
    requires PartsEarlier(table) && r < |table| && Copies(states, ProductOf(r)) && q < |states|
    ensures Copies(states, ProductOf(|table|))
    ensures Walks(table, states, q, ProductOf(r)) <==> Walks(table, states, q, table[r].left)
  {
  }

  /** A token has a target exactly where its own spelling encodes to it. */
  ghost predicate TellsTokens(table: seq<Merge>, r: nat, entries: seq<Entry>, states: seq<Copy>)
    requires PartsEarlier(table) && r <= |table|
  {
    && |entries| == ProductOf(r) && Copies(states, ProductOf(r))
    && (forall t: nat | t < ProductOf(r) :: entries[t].target.Some? <==> Canonical(table, r, [t]))
    && (forall t: nat | t < ProductOf(r) && entries[t].target.Some? :: entries[t].target.value < |states|)
    && (forall t: nat | t < ProductOf(r) :: entries[t].spelling == Spelling(table, t))
    && (forall t: nat | t < ProductOf(r) :: entries[t].left == if t < BYTES then None else Some(table[t - BYTES].left))
  }

  /** The state a token enters reads exactly the tokens that may follow it in an encoding. */
  ghost predicate TellsPairs(table: seq<Merge>, r: nat, entries: seq<Entry>, states: seq<Copy>)
    requires PartsEarlier(table) && r <= |table| && TellsTokens(table, r, entries, states)
  {
    forall t: nat, u: nat | t < ProductOf(r) && u < ProductOf(r) && entries[t].target.Some?
      && entries[u].target.Some? ::
      Walks(table, states, entries[t].target.value, u) <==> CanonicalPair(table, r, t, u)
  }

  /** Before any merge every byte may follow every byte. */
  lemma {:induction false} BytesTell(table: seq<Merge>, entries: seq<Entry>)
    requires PartsEarlier(table)
    requires |entries| == BYTES && forall t: Byte :: entries[t] == Entry([t], None, Some(BASE))
    ensures TellsTokens(table, 0, entries, [Copy(BASE, 0, [])])
    ensures TellsPairs(table, 0, entries, [Copy(BASE, 0, [])])
  {
    forall t: nat | t < BYTES
      ensures entries[t] == Entry([t], None, Some(BASE)) && Canonical(table, 0, [t]) && Spelling(table, t) == [t]
    {
      var b: Byte := t;
      assert entries[b] == Entry([b], None, Some(BASE));
      BytesCanonical(table, [t]);
    }
    forall t: nat, u: nat | t < BYTES && u < BYTES ensures CanonicalPair(table, 0, t, u) {
      BytesCanonical(table, [t, u]);
    }
  }

  /** The entries after a merge whose parts never meet: a product with no target. */
  ghost predicate Unmerged(table: seq<Merge>, r: nat, entries: seq<Entry>, more: seq<Entry>)
    requires PartsEarlier(table) && r < |table| && |entries| == ProductOf(r)
  {
    more == entries + [Entry(Spelling(table, ProductOf(r)), Some(table[r].left), None)]
  }

  /** A merge whose parts never meet adds a token that is never canonical and changes nothing else. */
  lemma {:induction false} UnreadableTokens(
      table: seq<Merge>, r: nat, entries: seq<Entry>, states: seq<Copy>, more: seq<Entry>)
    requires PartsEarlier(table) && r < |table| && TellsTokens(table, r, entries, states)
    requires !CanonicalPair(table, r, table[r].left, table[r].right) && Unmerged(table, r, entries, more)
    ensures TellsTokens(table, r + 1, more, states)
  {
    hide Canonical, Spelling;
    forall t: nat | t < ProductOf(r + 1) ensures more[t].target.Some? <==> Canonical(table, r + 1, [t]) {
      TokenStep(table, r, t);
    }
  }

  lemma {:induction false} UnreadablePairs(
      table: seq<Merge>, r: nat, entries: seq<Entry>, states: seq<Copy>, more: seq<Entry>)
    requires PartsEarlier(table) && r < |table|
    requires TellsTokens(table, r, entries, states) && TellsPairs(table, r, entries, states)
    requires !CanonicalPair(table, r, table[r].left, table[r].right) && Unmerged(table, r, entries, more)
    ensures TellsTokens(table, r + 1, more, states) && TellsPairs(table, r + 1, more, states)
  {
    UnreadableTokens(table, r, entries, states, more);
    hide Canonical, Spelling, CanonicalPair, Walks;
    forall t: nat, u: nat | t < ProductOf(r + 1) && u < ProductOf(r + 1) && more[t].target.Some? && more[u].target.Some?
      ensures Walks(table, states, more[t].target.value, u) <==> CanonicalPair(table, r + 1, t, u)
    {
      PairStep(table, r, t, u);
      assert t < ProductOf(r) && u < ProductOf(r);
      assert Walks(table, states, entries[t].target.value, u) <==> CanonicalPair(table, r, t, u);
    }
  }

  /**
    The entries and states after a merge whose parts meet: the product enters the right part's
    state, and the left part a copy of its own that no longer reads the right part.
   */
  ghost predicate Merged(
      table: seq<Merge>, r: nat, entries: seq<Entry>, states: seq<Copy>, more: seq<Entry>, wider: seq<Copy>)
    requires PartsEarlier(table) && r < |table| && |entries| == ProductOf(r) && entries[table[r].left].target.Some?
  {
    var m, p := table[r], ProductOf(r);
    && more == entries[m.left := entries[m.left].(target := Some(|states|))]
               + [Entry(Spelling(table, p), Some(m.left), entries[m.right].target)]
    && wider == states + [Copy(entries[m.left].target.value, p + 1,
      if m.left == m.right then [m.right, p] else [m.right])]
  }

  /** What the product's entry says. */
  lemma {:induction false} MergedEntries(
      table: seq<Merge>, r: nat, entries: seq<Entry>, states: seq<Copy>, more: seq<Entry>, wider: seq<Copy>, t: Token)
    requires PartsEarlier(table) && r < |table| && TellsTokens(table, r, entries, states)
    requires entries[table[r].left].target.Some? && Merged(table, r, entries, states, more, wider)
    requires t < ProductOf(r + 1)
    ensures |more| == ProductOf(r + 1)
    ensures more[t].spelling == Spelling(table, t)
    ensures more[t].left == if t < BYTES then None else Some(table[t - BYTES].left)
    ensures more[t].target == if t == ProductOf(r) then entries[table[r].right].target
                              else if t == table[r].left then Some(|states|) else entries[t].target
  {
    hide Canonical, Spelling;
  }

  lemma {:induction false} ReadableTokens(
      table: seq<Merge>, r: nat, entries: seq<Entry>, states: seq<Copy>, more: seq<Entry>, wider: seq<Copy>)
    requires PartsEarlier(table) && r < |table| && TellsTokens(table, r, entries, states)
    requires entries[table[r].left].target.Some? && CanonicalPair(table, r, table[r].left, table[r].right)
    requires Merged(table, r, entries, states, more, wider)
    ensures TellsTokens(table, r + 1, more, wider)
  {
    PairIsTokens(table, r, table[r].left, table[r].right);
    hide Canonical, Spelling;
    assert Copies(wider, ProductOf(r + 1));
    forall t: nat | t < ProductOf(r + 1)
      ensures more[t].target.Some? <==> Canonical(table, r + 1, [t])
      ensures more[t].spelling == Spelling(table, t)
      ensures more[t].left == if t < BYTES then None else Some(table[t - BYTES].left)
      ensures more[t].target.Some? ==> more[t].target.value < |wider|
    {
      TokenStep(table, r, t);
      MergedEntries(table, r, entries, states, more, wider, t);
      hide Merged;
    }
  }

  /**
    What the new copy reads: what the left part's old state reads, less the right part, and less the
    product of equal parts.
   */
  lemma {:induction false} CopyWalks(
      table: seq<Merge>, r: nat, states: seq<Copy>, wider: seq<Copy>, from: nat, removed: seq<Token>, u: Token)
    requires PartsEarlier(table) && r < |table| && Copies(states, ProductOf(r)) && from < |states|
    requires u < ProductOf(r + 1)
    requires wider == states + [Copy(from, ProductOf(r) + 1, removed)]
    ensures Copies(wider, ProductOf(|table|)) && Copies(states, ProductOf(|table|))
    ensures Walks(table, wider, |states|, u) <==> u !in removed && Walks(table, states, from, u)
  {
    WalksInMore(table, states, wider, from, u);
  }

  /** What the state a token enters after the merge reads, in terms of the states before it. */
  lemma {:induction false} MergedWalks(
      table: seq<Merge>, r: nat, entries: seq<Entry>, states: seq<Copy>, more: seq<Entry>, wider: seq<Copy>, t: Token,
      u: Token)
    requires PartsEarlier(table) && r < |table| && TellsTokens(table, r, entries, states)
    requires entries[table[r].left].target.Some? && entries[table[r].right].target.Some?
    requires Merged(table, r, entries, states, more, wider) && TellsTokens(table, r + 1, more, wider)
    requires t < ProductOf(r + 1) && u < ProductOf(r + 1) && more[t].target.Some? && more[u].target.Some?
    ensures var m, p := table[r], ProductOf(r);
            var last, first := if t == p then m.right else t, if u == p then m.left else u;
            && Copies(states, ProductOf(|table|)) && entries[last].target.Some? && entries[first].target.Some?
            && (Walks(table, wider, more[t].target.value, u) <==>
                  Walks(table, states, entries[last].target.value, first) && TightPair(m, p, t, u))
  {
    var m, p := table[r], ProductOf(r);
    var first := if u == p then m.left else u;
    var from := entries[m.left].target.value;
    hide Canonical, Spelling;
    if t == m.left {
      CopyWalks(table, r, states, wider, from, wider[|states|].removed, u);
      NewbornWalks(table, r, states, from);
    } else {
      var q := more[t].target.value;
      WalksInMore(table, states, wider, q, u);
      NewbornWalks(table, r, states, q);
    }
  }

  lemma {:induction false} ReadablePairs(
      table: seq<Merge>, r: nat, entries: seq<Entry>, states: seq<Copy>, more: seq<Entry>, wider: seq<Copy>)
    requires PartsEarlier(table) && r < |table|
    requires TellsTokens(table, r, entries, states) && TellsPairs(table, r, entries, states)
    requires entries[table[r].left].target.Some? && CanonicalPair(table, r, table[r].left, table[r].right)
    requires Merged(table, r, entries, states, more, wider)
    ensures TellsTokens(table, r + 1, more, wider) && TellsPairs(table, r + 1, more, wider)
  {
    ReadableTokens(table, r, entries, states, more, wider);
    PairIsTokens(table, r, table[r].left, table[r].right);
    var m, p := table[r], ProductOf(r);
    hide Canonical, Spelling, CanonicalPair, Walks, TightPair, Merged;
    forall t: nat, u: nat | t < ProductOf(r + 1) && u < ProductOf(r + 1) && more[t].target.Some? && more[u].target.Some?
      ensures Walks(table, wider, more[t].target.value, u) <==> CanonicalPair(table, r + 1, t, u)
    {
      PairStep(table, r, t, u);
      MergedWalks(table, r, entries, states, more, wider, t, u);
      var last, first := if t == p then m.right else t, if u == p then m.left else u;
      assert Walks(table, states, entries[last].target.value, first) <==> CanonicalPair(table, r, last, first);
    }
  }

  /** The tokens below the bound by their spelling. */
  ghost predicate Indexed(table: seq<Merge>, bound: nat, index: map<Word, Token>)
    requires PartsEarlier(table) && bound <= ProductOf(|table|)
  {
    && (forall w | w in index :: index[w] < bound && Spelling(table, index[w]) == w)
    && (forall t: nat | t < bound :: Spelling(table, t) in index)
  }

  lemma {:induction false} IndexedMore(table: seq<Merge>, bound: nat, index: map<Word, Token>)
    requires PartsEarlier(table) && bound < ProductOf(|table|) && Indexed(table, bound, index)
    ensures Indexed(table, bound + 1, index[Spelling(table, bound) := bound])
  {
    hide Spelling;
    var more := index[Spelling(table, bound) := bound];
    forall w | w in more ensures more[w] < bound + 1 && Spelling(table, more[w]) == w {
    }
    forall t: nat | t < bound + 1 ensures Spelling(table, t) in more {
      assert t < bound ==> Spelling(table, t) in index;
    }
  }

  lemma {:induction false} BytesAreIndexed(table: seq<Merge>, index: map<Word, Token>)
    requires PartsEarlier(table) && forall w :: w in index <==> |w| == 1
    requires forall b: Byte :: [b] in index && index[[b]] == b
    ensures Indexed(table, BYTES, index)
  {
    forall w | w in index ensures index[w] < BYTES && Spelling(table, index[w]) == w {
      assert w == [w[0]];
    }
    forall t: nat | t < BYTES ensures Spelling(table, t) in index {
      var b: Byte := t;
      assert Spelling(table, t) == [b];
    }
  }

  class Automaton {
    const table: seq<Merge>
    var merged: nat
    var entries: seq<Entry>
    var states: seq<Copy>
    var index: map<Word, Token>

    /** The automaton of the merges taken so far. */
    ghost predicate Tells()
      reads this
    {
      && Admissible(table) && merged <= |table| && |entries| == ProductOf(merged)
      && TellsTokens(table, merged, entries, states)
      && TellsPairs(table, merged, entries, states)
      && Indexed(table, ProductOf(merged), index)
    }

    ghost predicate Valid()
      reads this
    {
      Tells() && merged == |table|
    }

    /** Builds the automaton of an admissible table, merge by merge in rank order. */
    constructor (table: seq<Merge>)
      requires Admissible(table)
      ensures Valid() && this.table == table
    {
      var bytes := ByteIndex();
      this.table := table;
      index := bytes;
      merged := 0;
      entries := seq(BYTES, t requires 0 <= t < BYTES => Entry([t as Byte], None, Some(BASE)));
      states := [Copy(BASE, 0, [])];
      new;
      BytesTell(table, entries);
      BytesAreIndexed(table, index);
      while merged < |table|
        invariant Tells() && this.table == table
        decreases |table| - merged
      {
        TakeMerge();
      }
    }

    /**
      Whether the state reads the token: it is canonical, and every copy on the way to the base
      still reads what it stands for.
     */
    method IsAllowed(state: nat, token: Token) returns (allowed: bool)
      requires Tells() && state < |states| && token < |entries|
      ensures allowed <==> entries[token].target.Some? && Walks(table, states, state, token)
    {
      if entries[token].target.None? {
        return false;
      }
      var q, t := state, token;
      while q != BASE
        invariant 0 <= q < |states| && 0 <= t < |entries|
        invariant Walks(table, states, q, t) <==> Walks(table, states, state, token)
        decreases q, t
      {
        if t >= states[q].birth {
          t := entries[t].left.value;
        } else if t in states[q].removed {
          return false;
        } else {
          q := states[q].parent;
        }
      }
      allowed := true;
    }

    /** Whether the next merge's left part enters a state that reads the right part: whether the two meet. */
    method ReadsParts() returns (readable: bool)
      requires Tells() && merged < |table|
      ensures readable <==> CanonicalPair(table, merged, table[merged].left, table[merged].right)
      ensures readable ==> entries[table[merged].left].target.Some? && entries[table[merged].right].target.Some?
    {
      var copied := entries[table[merged].left].target;
      readable := false;
      if copied.Some? {
        readable := IsAllowed(copied.value, table[merged].right);
      }
      ReadableMeets(table, merged, entries, states, readable);
    }

    /** Takes in a merge whose parts never meet: a product without a target. */
    method TakeUnreadable(spelling: Word)
      requires Tells() && merged < |table| && spelling == Spelling(table, ProductOf(merged))
      requires !CanonicalPair(table, merged, table[merged].left, table[merged].right)
      modifies this
      ensures Tells() && merged == old(merged) + 1
    {
      hide Spelling, Canonical, CanonicalPair, Walks, Indexed, SpelledOnce, TellsTokens, TellsPairs;
      IndexedMore(table, ProductOf(merged), index);
      var more := entries + [Entry(spelling, Some(table[merged].left), None)];
      UnreadablePairs(table, merged, entries, states, more);
      entries, index, merged := more, index[spelling := ProductOf(merged)], merged + 1;
    }

    /** Takes in a merge whose parts meet: a copy of the left part's state that no longer reads the right part. */
    method TakeReadable(spelling: Word)
      requires Tells() && merged < |table| && spelling == Spelling(table, ProductOf(merged))
      requires CanonicalPair(table, merged, table[merged].left, table[merged].right)
      requires entries[table[merged].left].target.Some?
      modifies this
      ensures Tells() && merged == old(merged) + 1
    {
      hide Spelling, Canonical, CanonicalPair, Walks, Indexed, SpelledOnce, TellsTokens, TellsPairs;
      var m, p := table[merged], ProductOf(merged);
      IndexedMore(table, p, index);
      var removed := if m.left == m.right then [m.right, p] else [m.right];
      var more := entries[m.left := entries[m.left].(target := Some(|states|))]
                  + [Entry(spelling, Some(m.left), entries[m.right].target)];
      var wider := states + [Copy(entries[m.left].target.value, p + 1, removed)];
      ReadablePairs(table, merged, entries, states, more, wider);
      entries, states, index, merged := more, wider, index[spelling := p], merged + 1;
    }

    /** Takes the next merge in. */
    method TakeMerge()
      requires Tells() && merged < |table|
      modifies this
      ensures Tells() && merged == old(merged) + 1
    {
      SpellingOfProduct(table, merged);
      var readable := ReadsParts();
      var spelling := entries[table[merged].left].spelling + entries[table[merged].right].spelling;
      if readable {
        TakeReadable(spelling);
      } else {
        TakeUnreadable(spelling);
      }
    }

    /** The token of a spelling, if any. */
    method TokenOf(spelling: Word) returns (token: Option<Token>)
      requires Valid()
      ensures token.Some? ==> token.value < |entries| && Spelling(table, token.value) == spelling
      ensures token.None? ==> forall t: nat | t < |entries| :: Spelling(table, t) != spelling
    {
      hide Spelling;
      token := if spelling in index then Some(index[spelling]) else None;
    }

    /** A token may follow another exactly where the two are the encoding of what they spell. */
    method MayFollow(t: Token, u: Token) returns (follows: bool)
      requires Valid() && t < |entries| && u < |entries|
      ensures follows <==> CanonicalPair(table, |table|, t, u)
    {
      if entries[t].target.None? {
        NeighboursCanonical(table, |table|, t, u);
        return false;
      }
      follows := IsAllowed(entries[t].target.value, u);
      NeighboursCanonical(table, |table|, t, u);
    }
  }

  lemma {:induction false} NeighboursCanonical(table: seq<Merge>, cutoff: nat, t: Token, u: Token)
    requires PartsEarlier(table) && cutoff <= |table|
    ensures CanonicalPair(table, cutoff, t, u) ==> Canonical(table, cutoff, [t]) && Canonical(table, cutoff, [u])
  {
    if CanonicalPair(table, cutoff, t, u) {
      PairIsTokens(table, cutoff, t, u);
    }
  }

  /** The readability test is whether the parts meet. */
  lemma {:induction false} ReadableMeets(
      table: seq<Merge>, r: nat, entries: seq<Entry>, states: seq<Copy>, readable: bool)
    requires PartsEarlier(table) && r < |table|
    requires TellsTokens(table, r, entries, states) && TellsPairs(table, r, entries, states)
    requires readable <==>
               && entries[table[r].left].target.Some? && entries[table[r].right].target.Some?
               && Walks(table, states, entries[table[r].left].target.value, table[r].right)
    ensures readable <==> CanonicalPair(table, r, table[r].left, table[r].right)
  {
    NeighboursCanonical(table, r, table[r].left, table[r].right);
  }
}

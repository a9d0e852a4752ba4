/** Passes of merges over a sequence, and the token sequences that are their own text's encoding. */
module MergePasses {
  import opened Machine
  import opened MergeTable

  // ----- one pass -----

  /** One pass: every occurrence of the merge's parts the scan reaches is joined into the product p. */
  function Passed(m: Merge, p: Token, s: seq<Token>): seq<Token> {
    if |s| >= 2 && s[0] == m.left && s[1] == m.right then [p] + Passed(m, p, s[2..])
    else if s == [] then []
    else [s[0]] + Passed(m, p, s[1..])
  }

  /** The sequence with each product split back into its parts. */
  function Split(m: Merge, p: Token, s: seq<Token>): seq<Token> {
    if s == [] then []
    else SplitOne(m, p, s[0]) + Split(m, p, s[1..])
  }

  function SplitOne(m: Merge, p: Token, t: Token): seq<Token> {
    if t == p then [m.left, m.right] else [t]
  }

  /**
    No left part stands where the pass would have joined it: before the right part, or before a
    product beginning with it.
   */
  ghost predicate Tight(m: Merge, p: Token, s: seq<Token>) {
    forall i | 0 <= i < |s| - 1 :: TightPair(m, p, s[i], s[i + 1])
  }

  predicate TightPair(m: Merge, p: Token, t: Token, u: Token) {
    t == m.left ==> SplitOne(m, p, u)[0] != m.right
  }

  lemma {:induction false} SplitJoins(m: Merge, p: Token, s: seq<Token>, t: seq<Token>)
    ensures Split(m, p, s + t) == Split(m, p, s) + Split(m, p, t)
  {
    if s == [] {
      assert s + t == t;
    } else {
      assert (s + t)[1..] == s[1..] + t;
      SplitJoins(m, p, s[1..], t);
      assert SplitOne(m, p, s[0]) + (Split(m, p, s[1..]) + Split(m, p, t)) ==
        SplitOne(m, p, s[0]) + Split(m, p, s[1..]) + Split(m, p, t);
    }
  }

  lemma {:induction false} SplitPair(m: Merge, p: Token, t: Token, u: Token)
    ensures Split(m, p, [t]) == SplitOne(m, p, t)
    ensures Split(m, p, [t, u]) == SplitOne(m, p, t) + SplitOne(m, p, u)
  {
    assert [t][1..] == [] && [t, u][1..] == [u] && [u][1..] == [];
  }

  lemma {:induction false} TightCons(m: Merge, p: Token, t: Token, s: seq<Token>)
    ensures Tight(m, p, [t] + s) <==> Tight(m, p, s) && (s != [] ==> TightPair(m, p, t, s[0]))
  {
    var more := [t] + s;
    if Tight(m, p, more) {
      forall i | 0 <= i < |s| - 1 ensures TightPair(m, p, s[i], s[i + 1]) {
        assert TightPair(m, p, more[i + 1], more[i + 2]);
      }
      assert s != [] ==> TightPair(m, p, more[0], more[1]);
    }
    if Tight(m, p, s) && (s != [] ==> TightPair(m, p, t, s[0])) {
      forall i | 0 <= i < |more| - 1 ensures TightPair(m, p, more[i], more[i + 1]) {
        assert i > 0 ==> TightPair(m, p, s[i - 1], s[i]);
      }
    }
  }

  /** The first token a nonempty pass leaves splits back into a start of what was read. */
  lemma PassedStart(m: Merge, p: Token, s: seq<Token>)
    requires s != [] && p !in s
    ensures Passed(m, p, s) != [] && SplitOne(m, p, Passed(m, p, s)[0])[0] == s[0]
  {
  }

  /** A pass splits back into what it read, and leaves no left part it should have joined. */
  lemma {:induction false} PassSplits(m: Merge, p: Token, s: seq<Token>)
    requires p !in s && m.left != p && m.right != p
    ensures Split(m, p, Passed(m, p, s)) == s
    ensures Tight(m, p, Passed(m, p, s))
  {
    if |s| >= 2 && s[0] == m.left && s[1] == m.right {
      PassSplits(m, p, s[2..]);
      TightCons(m, p, p, Passed(m, p, s[2..]));
      assert ([p] + Passed(m, p, s[2..]))[1..] == Passed(m, p, s[2..]);
      assert [s[0], s[1]] + s[2..] == s;
    } else if s != [] {
      PassSplits(m, p, s[1..]);
      TightCons(m, p, s[0], Passed(m, p, s[1..]));
      assert ([s[0]] + Passed(m, p, s[1..]))[1..] == Passed(m, p, s[1..]);
      assert [s[0]] + s[1..] == s;
      if |s| >= 2 {
        PassedStart(m, p, s[1..]);
      }
    }
  }

  /** A sequence that leaves nothing to join is what the pass makes of its parts. */
  lemma {:induction false} TightPasses(m: Merge, p: Token, s: seq<Token>)
    requires m.left != p && m.right != p && Tight(m, p, s)
    ensures Passed(m, p, Split(m, p, s)) == s
  {
    if s != [] {
      assert [s[0]] + s[1..] == s;
      TightCons(m, p, s[0], s[1..]);
      TightPasses(m, p, s[1..]);
      var split := Split(m, p, s);
      if s[0] == p {
        assert split[2..] == Split(m, p, s[1..]);
      } else {
        assert split[1..] == Split(m, p, s[1..]);
        if |s| >= 2 {
          assert Split(m, p, s[1..])[0] == SplitOne(m, p, s[1])[0];
        }
      }
    }
  }

  // ----- the passes of the merges below a rank -----

  ghost predicate Under(s: seq<Token>, bound: nat) {
    forall i | 0 <= i < |s| :: s[i] < bound
  }

  /** The passes of the merges of ranks from r on, below a cutoff. */
  function PassesFrom(table: seq<Merge>, r: nat, cutoff: nat, s: seq<Token>): seq<Token>
    requires r <= cutoff <= |table|
    decreases cutoff - r
  {
    if r == cutoff then s else PassesFrom(table, r + 1, cutoff, Passed(table[r], ProductOf(r), s))
  }

  /** The encoding with the merges below a rank: one pass each, in rank order. */
  function Encoded(table: seq<Merge>, cutoff: nat, s: seq<Token>): seq<Token>
    requires cutoff <= |table|
  {
    if cutoff == 0 then s
    else Passed(table[cutoff - 1], ProductOf(cutoff - 1), Encoded(table, cutoff - 1, s))
  }

  lemma {:induction false} PassesAfter(table: seq<Merge>, r: nat, cutoff: nat, s: seq<Token>)
    requires r <= cutoff <= |table|
    ensures PassesFrom(table, r, cutoff, Encoded(table, r, s)) == Encoded(table, cutoff, s)
    decreases cutoff - r
  {
    if r < cutoff {
      PassesAfter(table, r + 1, cutoff, s);
    }
  }

  // ----- spellings -----

  function SpellingOf(table: seq<Merge>, s: seq<Token>): Word
    requires PartsEarlier(table) && Under(s, ProductOf(|table|))
  {
    if s == [] then [] else Spelling(table, s[0]) + SpellingOf(table, s[1..])
  }

  lemma {:induction false} SpellingJoins(table: seq<Merge>, s: seq<Token>, t: seq<Token>)
    requires PartsEarlier(table) && Under(s, ProductOf(|table|)) && Under(t, ProductOf(|table|))
    ensures SpellingOf(table, s + t) == SpellingOf(table, s) + SpellingOf(table, t)
  {
    hide Spelling;
    if s == [] {
      assert s + t == t;
    } else {
      assert (s + t)[1..] == s[1..] + t;
      SpellingJoins(table, s[1..], t);
      var first := Spelling(table, s[0]);
      assert first + (SpellingOf(table, s[1..]) + SpellingOf(table, t)) ==
        first + SpellingOf(table, s[1..]) + SpellingOf(table, t);
    }
  }

  lemma {:induction false} SpellingOfOne(table: seq<Merge>, t: Token)
    requires PartsEarlier(table) && t < ProductOf(|table|)
    ensures SpellingOf(table, [t]) == Spelling(table, t)
  {
    hide Spelling;
    assert SpellingOf(table, [t][1..]) == [];
  }

  lemma {:induction false} SpellingOfTwo(table: seq<Merge>, t: Token, u: Token)
    requires PartsEarlier(table) && t < ProductOf(|table|) && u < ProductOf(|table|)
    ensures SpellingOf(table, [t, u]) == Spelling(table, t) + Spelling(table, u)
  {
    SpellingOfOne(table, t);
    SpellingOfOne(table, u);
    assert [t] + [u] == [t, u];
    SpellingJoins(table, [t], [u]);
  }

  /** A word is the spelling of its bytes. */
  lemma {:induction false} BytesSpell(table: seq<Merge>, w: Word)
    requires PartsEarlier(table)
    ensures Under(w, ProductOf(|table|)) && SpellingOf(table, w) == w
  {
    if w != [] {
      BytesSpell(table, w[1..]);
      assert Spelling(table, w[0]) == [w[0]];
    }
  }

  /** Splitting a product leaves the spelling, and only earlier tokens. */
  lemma {:induction false} SplitSpells(table: seq<Merge>, r: nat, s: seq<Token>)
    requires PartsEarlier(table) && r < |table| && Under(s, ProductOf(r + 1))
    ensures Under(Split(table[r], ProductOf(r), s), ProductOf(r))
    ensures SpellingOf(table, Split(table[r], ProductOf(r), s)) == SpellingOf(table, s)
  {
    if s != [] {
      SplitSpells(table, r, s[1..]);
      var one, rest := SplitOne(table[r], ProductOf(r), s[0]), Split(table[r], ProductOf(r), s[1..]);
      SplitOneSpells(table, r, s[0]);
      hide Spelling;
      SpellingJoins(table, one, rest);
    }
  }

  lemma {:induction false} SplitOneSpells(table: seq<Merge>, r: nat, t: Token)
    requires PartsEarlier(table) && r < |table| && t < ProductOf(r + 1)
    ensures Under(SplitOne(table[r], ProductOf(r), t), ProductOf(r))
    ensures SpellingOf(table, SplitOne(table[r], ProductOf(r), t)) == Spelling(table, t)
  {
    if t == ProductOf(r) {
      SpellingOfTwo(table, table[r].left, table[r].right);
      SpellingOfProduct(table, r);
    } else {
      SpellingOfOne(table, t);
    }
  }

  /** A pass keeps to the tokens up to its product. */
  lemma {:induction false} PassedUnder(m: Merge, p: Token, s: seq<Token>)
    requires Under(s, p)
    ensures Under(Passed(m, p, s), p + 1)
  {
    if |s| >= 2 && s[0] == m.left && s[1] == m.right {
      PassedUnder(m, p, s[2..]);
    } else if s != [] {
      PassedUnder(m, p, s[1..]);
    }
  }

  /** An encoding keeps to the tokens below its cutoff and spells what was encoded. */
  lemma {:induction false} EncodedSpells(table: seq<Merge>, cutoff: nat, w: Word)
    requires PartsEarlier(table) && cutoff <= |table|
    ensures Under(Encoded(table, cutoff, w), ProductOf(cutoff))
    ensures SpellingOf(table, Encoded(table, cutoff, w)) == w
  {
    if cutoff == 0 {
      BytesSpell(table, w);
    } else {
      EncodedSpells(table, cutoff - 1, w);
      var s, m, p := Encoded(table, cutoff - 1, w), table[cutoff - 1], ProductOf(cutoff - 1);
      PassedUnder(m, p, s);
      PassSplits(m, p, s);
      SplitSpells(table, cutoff - 1, Passed(m, p, s));
    }
  }

  // ----- encodings -----

  /** The sequence is the encoding, with the merges below the cutoff, of what it spells. */
  ghost predicate Canonical(table: seq<Merge>, cutoff: nat, s: seq<Token>)
    requires PartsEarlier(table) && cutoff <= |table|
  {
    Under(s, ProductOf(cutoff)) && Encoded(table, cutoff, SpellingOf(table, s)) == s
  }

  lemma {:induction false} EncodedIsCanonical(table: seq<Merge>, cutoff: nat, w: Word)
    requires PartsEarlier(table) && cutoff <= |table|
    ensures Canonical(table, cutoff, Encoded(table, cutoff, w))
  {
    EncodedSpells(table, cutoff, w);
  }

  /** One merge more: the parts are an encoding below it, and it leaves nothing to join. */
  lemma {:induction false} CanonicalStep(table: seq<Merge>, r: nat, s: seq<Token>)
    requires PartsEarlier(table) && r < |table| && Under(s, ProductOf(r + 1))
    ensures Canonical(table, r + 1, s) <==>
              Canonical(table, r, Split(table[r], ProductOf(r), s)) && Tight(table[r], ProductOf(r), s)
  {
    var m, p := table[r], ProductOf(r);
    var w, parts := SpellingOf(table, s), Split(m, p, s);
    SplitSpells(table, r, s);
    EncodedSpells(table, r, w);
    PassSplits(m, p, Encoded(table, r, w));
    if Tight(m, p, s) {
      TightPasses(m, p, s);
    }
    hide SpellingOf, Spelling, Split, Passed;
  }

  /** The bytes alone are always encodings of nothing merged. */
  lemma {:induction false} BytesCanonical(table: seq<Merge>, s: seq<Token>)
    requires PartsEarlier(table) && Under(s, BYTES)
    ensures Canonical(table, 0, s)
  {
    var w: Word := s;
    BytesSpell(table, w);
  }

  lemma {:induction false} UnderJoins(s: seq<Token>, t: seq<Token>, bound: nat)
    ensures Under(s + t, bound) <==> Under(s, bound) && Under(t, bound)
  {
    assert forall i | 0 <= i < |s| :: (s + t)[i] == s[i];
    assert forall i | 0 <= i < |t| :: (s + t)[|s| + i] == t[i];
  }

  lemma {:induction false} TightParts(m: Merge, p: Token, s: seq<Token>, t: seq<Token>)
    requires Tight(m, p, s + t)
    ensures Tight(m, p, s) && Tight(m, p, t)
  {
    forall i | 0 <= i < |s| - 1 ensures TightPair(m, p, s[i], s[i + 1]) {
      assert TightPair(m, p, (s + t)[i], (s + t)[i + 1]);
    }
    forall i | 0 <= i < |t| - 1 ensures TightPair(m, p, t[i], t[i + 1]) {
      assert TightPair(m, p, (s + t)[|s| + i], (s + t)[|s| + i + 1]);
    }
  }

  /** Either side of a cut between tokens of an encoding is an encoding by itself. */
  lemma {:induction false} Projection(table: seq<Merge>, cutoff: nat, s: seq<Token>, t: seq<Token>)
    requires PartsEarlier(table) && cutoff <= |table| && Canonical(table, cutoff, s + t)
    ensures Canonical(table, cutoff, s) && Canonical(table, cutoff, t)
  {
    UnderJoins(s, t, ProductOf(cutoff));
    if cutoff == 0 {
      BytesCanonical(table, s);
      BytesCanonical(table, t);
    } else {
      var r := cutoff - 1;
      var m, p := table[r], ProductOf(r);
      CanonicalStep(table, r, s + t);
      SplitJoins(m, p, s, t);
      Projection(table, r, Split(m, p, s), Split(m, p, t));
      TightParts(m, p, s, t);
      CanonicalStep(table, r, s);
      CanonicalStep(table, r, t);
    }
  }

  /** A stretch of an encoding is an encoding by itself. */
  lemma {:induction false} StretchCanonical(table: seq<Merge>, cutoff: nat, s: seq<Token>, i: nat, j: nat)
    requires PartsEarlier(table) && cutoff <= |table| && Canonical(table, cutoff, s) && i <= j <= |s|
    ensures Canonical(table, cutoff, s[i..j])
  {
    assert s == s[..i] + s[i..];
    Projection(table, cutoff, s[..i], s[i..]);
    assert s[i..] == s[i..j] + s[j..];
    Projection(table, cutoff, s[i..j], s[j..]);
  }

  /** Every token and every two neighbours of the sequence are encodings. */
  ghost predicate PairwiseCanonical(table: seq<Merge>, cutoff: nat, s: seq<Token>)
    requires PartsEarlier(table) && cutoff <= |table|
  {
    && (forall i | 0 <= i < |s| :: Canonical(table, cutoff, [s[i]]))
    && (forall i | 0 <= i < |s| - 1 :: CanonicalPair(table, cutoff, s[i], s[i + 1]))
  }

  ghost predicate CanonicalPair(table: seq<Merge>, cutoff: nat, t: Token, u: Token)
    requires PartsEarlier(table) && cutoff <= |table|
  {
    Canonical(table, cutoff, [t, u])
  }

  lemma {:induction false} PairwiseCons(table: seq<Merge>, cutoff: nat, t: Token, s: seq<Token>)
    requires PartsEarlier(table) && cutoff <= |table|
    ensures PairwiseCanonical(table, cutoff, [t] + s) <==>
              && Canonical(table, cutoff, [t]) && PairwiseCanonical(table, cutoff, s)
              && (s != [] ==> CanonicalPair(table, cutoff, t, s[0]))
  {
    hide Canonical;
    var more := [t] + s;
    if PairwiseCanonical(table, cutoff, more) {
      assert more[0] == t;
      forall i | 0 <= i < |s| ensures Canonical(table, cutoff, [s[i]]) {
        assert more[i + 1] == s[i];
      }
      forall i | 0 <= i < |s| - 1 ensures CanonicalPair(table, cutoff, s[i], s[i + 1]) {
        assert CanonicalPair(table, cutoff, more[i + 1], more[i + 2]);
      }
      assert s != [] ==> CanonicalPair(table, cutoff, more[0], more[1]);
    }
    if Canonical(table, cutoff, [t]) && PairwiseCanonical(table, cutoff, s) && (s != [] ==>
      CanonicalPair(table, cutoff, t, s[0])) {
      forall i | 0 <= i < |more| - 1 ensures CanonicalPair(table, cutoff, more[i], more[i + 1]) {
        assert i > 0 ==> CanonicalPair(table, cutoff, s[i - 1], s[i]);
      }
    }
  }

  /** Neighbours that are encodings split into neighbours that are encodings one merge earlier. */
  lemma {:induction false} PairwiseSplits(table: seq<Merge>, r: nat, s: seq<Token>)
    requires PartsEarlier(table) && r < |table| && PairwiseCanonical(table, r + 1, s)
    ensures PairwiseCanonical(table, r, Split(table[r], ProductOf(r), s))
    ensures s != [] ==> Split(table[r], ProductOf(r), s) != []
    ensures s != [] ==> Split(table[r], ProductOf(r), s)[0] == SplitOne(table[r], ProductOf(r), s[0])[0]
    ensures Tight(table[r], ProductOf(r), s)
  {
    var m, p := table[r], ProductOf(r);
    if s != [] {
      var rest := s[1..];
      assert s == [s[0]] + rest;
      PairwiseCons(table, r + 1, s[0], rest);
      PairwiseSplits(table, r, rest);
      TightCons(m, p, s[0], rest);
      TokenSplits(table, r, s[0]);
      if rest != [] {
        PairSplits(table, r, s[0], rest[0]);
      }
      SplitJoinsPairwise(table, r, SplitOne(m, p, s[0]), Split(m, p, rest));
    }
  }

  /** Two nonempty sequences of canonical neighbours join where the pair at the seam is canonical. */
  lemma {:induction false} SplitJoinsPairwise(table: seq<Merge>, cutoff: nat, one: seq<Token>, rest: seq<Token>)
    requires PartsEarlier(table) && cutoff <= |table| && 1 <= |one| <= 2
    requires PairwiseCanonical(table, cutoff, one) && PairwiseCanonical(table, cutoff, rest)
    requires rest != [] ==> CanonicalPair(table, cutoff, one[|one| - 1], rest[0])
    ensures PairwiseCanonical(table, cutoff, one + rest)
  {
    hide Canonical, CanonicalPair;
    var last := one[|one| - 1];
    assert Canonical(table, cutoff, [last]);
    PairwiseCons(table, cutoff, last, rest);
    if |one| == 2 {
      assert one == [one[0]] + [last];
      PairwiseCons(table, cutoff, one[0], [last]);
      PairwiseCons(table, cutoff, one[0], [last] + rest);
      assert one + rest == [one[0]] + ([last] + rest);
    } else {
      assert one + rest == [last] + rest;
    }
  }

  /** What a canonical token splits into. */
  lemma {:induction false} TokenSplits(table: seq<Merge>, r: nat, t: Token)
    requires PartsEarlier(table) && r < |table| && Canonical(table, r + 1, [t])
    ensures PairwiseCanonical(table, r, SplitOne(table[r], ProductOf(r), t))
  {
    var m, p := table[r], ProductOf(r);
    CanonicalStep(table, r, [t]);
    SplitPair(m, p, t, t);
    CanonicalIsPairwise(table, r, SplitOne(m, p, t));
  }

  lemma {:induction false} PairSplits(table: seq<Merge>, r: nat, t: Token, u: Token)
    requires PartsEarlier(table) && r < |table| && CanonicalPair(table, r + 1, t, u)
    ensures var one := SplitOne(table[r], ProductOf(r), t);
            CanonicalPair(table, r, one[|one| - 1], SplitOne(table[r], ProductOf(r), u)[0])
    ensures TightPair(table[r], ProductOf(r), t, u)
  {
    var m, p := table[r], ProductOf(r);
    CanonicalStep(table, r, [t, u]);
    SplitPair(m, p, t, u);
    var one, two := SplitOne(m, p, t), SplitOne(m, p, u);
    var i := |one| - 1;
    StretchCanonical(table, r, one + two, i, i + 2);
    assert (one + two)[i..i + 2] == [one[i], two[0]];
    assert TightPair(m, p, [t, u][0], [t, u][1]);
  }

  lemma {:induction false} CanonicalIsPairwise(table: seq<Merge>, cutoff: nat, s: seq<Token>)
    requires PartsEarlier(table) && cutoff <= |table| && Canonical(table, cutoff, s)
    ensures PairwiseCanonical(table, cutoff, s)
  {
    forall i | 0 <= i < |s| ensures Canonical(table, cutoff, [s[i]]) {
      StretchCanonical(table, cutoff, s, i, i + 1);
      assert s[i..i + 1] == [s[i]];
    }
    forall i | 0 <= i < |s| - 1 ensures CanonicalPair(table, cutoff, s[i], s[i + 1]) {
      StretchCanonical(table, cutoff, s, i, i + 2);
      assert s[i..i + 2] == [s[i], s[i + 1]];
    }
  }

  lemma {:induction false} PairwiseBelow(table: seq<Merge>, r: nat, s: seq<Token>)
    requires PartsEarlier(table) && r < |table| && PairwiseCanonical(table, r + 1, s)
    ensures PairwiseCanonical(table, r, Split(table[r], ProductOf(r), s)) && Tight(table[r], ProductOf(r), s)
  {
    hide PairwiseCanonical, Split, Tight;
    PairwiseSplits(table, r, s);
  }

  lemma {:induction false} PairwiseUnder(table: seq<Merge>, cutoff: nat, s: seq<Token>)
    requires PartsEarlier(table) && cutoff <= |table| && PairwiseCanonical(table, cutoff, s)
    ensures Under(s, ProductOf(cutoff))
  {
    forall i | 0 <= i < |s| ensures s[i] < ProductOf(cutoff) {
      assert Canonical(table, cutoff, [s[i]]);
      assert [s[i]][0] == s[i];
    }
  }

  lemma {:induction false} PairwiseIsCanonical(table: seq<Merge>, cutoff: nat, s: seq<Token>)
    requires PartsEarlier(table) && cutoff <= |table| && PairwiseCanonical(table, cutoff, s)
    ensures Canonical(table, cutoff, s)
  {
    PairwiseUnder(table, cutoff, s);
    hide *;
    if cutoff == 0 {
      BytesCanonical(table, s);
    } else {
      PairwiseBelow(table, cutoff - 1, s);
      PairwiseIsCanonical(table, cutoff - 1, Split(table[cutoff - 1], ProductOf(cutoff - 1), s));
      CanonicalStep(table, cutoff - 1, s);
    }
  }

  /** A sequence of tokens is an encoding exactly when each token and each two neighbours are. */
  lemma {:induction false} Adjacency(table: seq<Merge>, cutoff: nat, s: seq<Token>)
    requires PartsEarlier(table) && cutoff <= |table|
    ensures Canonical(table, cutoff, s) <==> PairwiseCanonical(table, cutoff, s)
  {
    if Canonical(table, cutoff, s) {
      CanonicalIsPairwise(table, cutoff, s);
    }
    if PairwiseCanonical(table, cutoff, s) {
      PairwiseIsCanonical(table, cutoff, s);
    }
  }

  // ----- one merge more: which tokens and neighbours are encodings -----

  /** A product is canonical where its parts meet; the merge changes no other token. */
  lemma {:induction false} TokenStep(table: seq<Merge>, r: nat, t: Token)
    requires PartsEarlier(table) && r < |table| && t < ProductOf(r + 1)
    ensures Canonical(table, r + 1, [t]) <==>
              if t == ProductOf(r) then CanonicalPair(table, r, table[r].left, table[r].right) else Canonical(table, r,
                [t])
  {
    CanonicalStep(table, r, [t]);
    SplitPair(table[r], ProductOf(r), t, t);
  }

  /** Neighbours are canonical where they were at the seam and the merge does not join them. */
  lemma {:induction false} PairStep(table: seq<Merge>, r: nat, t: Token, u: Token)
    requires PartsEarlier(table) && r < |table| && t < ProductOf(r + 1) && u < ProductOf(r + 1)
    requires Canonical(table, r + 1, [t]) && Canonical(table, r + 1, [u])
    ensures var m, p := table[r], ProductOf(r);
            CanonicalPair(table, r + 1, t, u) <==>
              && CanonicalPair(table, r, if t == p then m.right else t, if u == p then m.left else u)
              && TightPair(m, p, t, u)
  {
    var m, p := table[r], ProductOf(r);
    var one, two := SplitOne(m, p, t), SplitOne(m, p, u);
    assert one[|one| - 1] == (if t == p then m.right else t) && two[0] == (if u == p then m.left else u);
    if CanonicalPair(table, r + 1, t, u) {
      PairSplits(table, r, t, u);
    }
    if CanonicalPair(table, r, one[|one| - 1], two[0]) && TightPair(m, p, t, u) {
      TokenSplits(table, r, t);
      TokenSplits(table, r, u);
      hide Canonical;
      SplitJoinsPairwise(table, r, one, two);
      Adjacency(table, r, one + two);
      SplitPair(m, p, t, u);
      CanonicalStep(table, r, [t, u]);
    }
  }

  /** Neighbours that are an encoding are two encodings. */
  lemma {:induction false} PairIsTokens(table: seq<Merge>, cutoff: nat, t: Token, u: Token)
    requires PartsEarlier(table) && cutoff <= |table| && CanonicalPair(table, cutoff, t, u)
    ensures Canonical(table, cutoff, [t]) && Canonical(table, cutoff, [u])
  {
    assert [t, u] == [t] + [u];
    Projection(table, cutoff, [t], [u]);
  }
}

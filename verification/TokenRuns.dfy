/** Where the tokens of a byte-pair encoding start, and runs of tokens over one occurrence of a window. */
module TokenRuns {
  import opened Machine
  import opened Suffixes
  import opened MergeTable
  import opened MergePasses

  // ----- where tokens start -----

  /** Where the i-th token starts in what the tokens spell. */
  ghost function Start(table: seq<Merge>, tokens: seq<Token>, i: nat): nat
    requires PartsEarlier(table) && Under(tokens, ProductOf(|table|)) && i <= |tokens|
  {
    |SpellingOf(table, tokens[..i])|
  }

  ghost predicate CoversByte(table: seq<Merge>, tokens: seq<Token>, i: nat, x: nat)
    requires PartsEarlier(table) && Under(tokens, ProductOf(|table|))
  {
    i < |tokens| && Start(table, tokens, i) <= x < Start(table, tokens, i + 1)
  }

  /** The token that covers the last byte of the occurrence at p does not start at the origin. */
  ghost predicate MissesAt(table: seq<Merge>, window: Word, origin: nat, tokens: seq<Token>, p: nat)
    requires PartsEarlier(table) && Under(tokens, ProductOf(|table|)) && window != []
  {
    exists i :: CoversByte(table, tokens, i, p + |window| - 1) && Start(table, tokens, i) != p + origin
  }

  /** The encoding of the text holds the window at p and misses the origin there. */
  ghost predicate Miscovers(table: seq<Merge>, window: Word, origin: nat, text: Word, p: nat)
    requires PartsEarlier(table) && window != []
  {
    EncodedSpells(table, |table|, text);
    OccursAt(text, window, p) && MissesAt(table, window, origin, Encoded(table, |table|, text), p)
  }

  lemma {:induction false} StartNext(table: seq<Merge>, tokens: seq<Token>, i: nat)
    requires PartsEarlier(table) && Under(tokens, ProductOf(|table|)) && i < |tokens|
    ensures Start(table, tokens, i + 1) == Start(table, tokens, i) + |Spelling(table, tokens[i])|
    ensures Start(table, tokens, i) < Start(table, tokens, i + 1) <= |SpellingOf(table, tokens)|
    ensures SpellingOf(table, tokens)[Start(table, tokens, i)..Start(table, tokens, i + 1)] == Spelling(table,
      tokens[i])
  {
    var front, one, rest := tokens[..i], [tokens[i]], tokens[i + 1..];
    assert tokens[..i + 1] == front + one && tokens == front + one + rest;
    SpellingJoins(table, front, one);
    SpellingJoins(table, front + one, rest);
    SpellingOfOne(table, tokens[i]);
    SpelledNonempty(table, tokens[i]);
    hide SpellingOf, Spelling;
  }

  lemma {:induction false} StartEnds(table: seq<Merge>, tokens: seq<Token>)
    requires PartsEarlier(table) && Under(tokens, ProductOf(|table|))
    ensures Start(table, tokens, 0) == 0 && Start(table, tokens, |tokens|) == |SpellingOf(table, tokens)|
  {
    assert tokens[..|tokens|] == tokens && tokens[..0] == [];
  }

  /** Every byte of the text is covered by a token. */
  lemma {:induction false} SomeCovers(table: seq<Merge>, tokens: seq<Token>, x: nat, n: nat) returns (i: nat)
    requires PartsEarlier(table) && Under(tokens, ProductOf(|table|)) && n <= |tokens| && x < Start(table, tokens, n)
    ensures CoversByte(table, tokens, i, x) && i < n
  {
    StartEnds(table, tokens);
    if x < Start(table, tokens, n - 1) {
      i := SomeCovers(table, tokens, x, n - 1);
    } else {
      i := n - 1;
    }
  }

  lemma {:induction false} StartsIncrease(table: seq<Merge>, tokens: seq<Token>, i: nat, j: nat)
    requires PartsEarlier(table) && Under(tokens, ProductOf(|table|)) && i <= j <= |tokens|
    ensures Start(table, tokens, i) <= Start(table, tokens, j)
    ensures i < j ==> Start(table, tokens, i) < Start(table, tokens, j)
  {
    if i < j {
      StartsIncrease(table, tokens, i, j - 1);
      StartNext(table, tokens, j - 1);
      hide Start;
    }
  }

  // ----- runs of tokens over one occurrence -----

  /** The tokens are an encoding whose end is the window's first k bytes, all past the first token inside the window. */
  ghost predicate IsRun(table: seq<Merge>, window: Word, run: seq<Token>, k: nat)
    requires PartsEarlier(table)
  {
    && run != [] && Canonical(table, |table|, run) && 1 <= k < |window|
    && var text := SpellingOf(table, run);
       k <= |text| && text[|text| - k..] == window[..k] && |text| - k < |Spelling(table, run[0])|
  }

  lemma {:induction false} CanonicalSnoc(table: seq<Merge>, s: seq<Token>, t: Token)
    requires PartsEarlier(table) && s != [] && Canonical(table, |table|, s) && CanonicalPair(table, |table|, Last(s), t)
    ensures Canonical(table, |table|, s + [t])
  {
    var n, more := |table|, s + [t];
    Adjacency(table, n, s);
    PairIsTokens(table, n, Last(s), t);
    hide Canonical, CanonicalPair;
    forall i | 0 <= i < |more| ensures Canonical(table, n, [more[i]]) {
      assert i < |s| ==> more[i] == s[i];
    }
    forall i | 0 <= i < |more| - 1 ensures CanonicalPair(table, n, more[i], more[i + 1]) {
      assert i < |s| - 1 ==> CanonicalPair(table, n, s[i], s[i + 1]);
    }
    Adjacency(table, n, more);
  }

  lemma {:induction false} SpellingSnoc(table: seq<Merge>, s: seq<Token>, t: Token)
    requires PartsEarlier(table) && Under(s, ProductOf(|table|)) && t < ProductOf(|table|)
    ensures SpellingOf(table, s + [t]) == SpellingOf(table, s) + Spelling(table, t)
  {
    SpellingJoins(table, s, [t]);
    SpellingOfOne(table, t);
  }

  /** A token ending with a proper prefix of the window seeds a run. */
  lemma {:induction false} SeedIsRun(table: seq<Merge>, window: Word, t: Token, k: nat)
    requires PartsEarlier(table) && t < ProductOf(|table|) && Canonical(table, |table|, [t]) && 1 <= k < |window|
    requires EndsWith(Spelling(table, t), window[..k])
    ensures IsRun(table, window, [t], k)
  {
    SpellingOfOne(table, t);
    hide SpellingOf, Spelling, Canonical;
  }

  predicate EndsWith(s: Word, w: Word) {
    |w| <= |s| && s[|s| - |w|..] == w
  }

  predicate StartsWith(s: Word, w: Word) {
    |w| <= |s| && s[..|w|] == w
  }

  lemma {:induction false} SliceOfSlice(s: Word, i: nat, j: nat, a: nat, b: nat)
    requires i <= j <= |s| && a <= b <= j - i
    ensures s[i..j][a..b] == s[i + a..i + b]
  {
    assert |s[i..j][a..b]| == |s[i + a..i + b]|;
    assert forall k | 0 <= k < b - a :: s[i..j][a..b][k] == s[i + a..i + b][k];
  }

  lemma JoinedEnd(text: Word, piece: Word, k: nat)
    requires k <= |text|
    ensures (text + piece)[|text| - k..] == text[|text| - k..] + piece
  {
  }

  /** A token inside the window that may follow takes a run further. */
  lemma {:induction false} RunMore(table: seq<Merge>, window: Word, run: seq<Token>, k: nat, t: Token, next: nat)
    requires PartsEarlier(table) && IsRun(table, window, run, k) && k < next < |window| && t < ProductOf(|table|)
    requires CanonicalPair(table, |table|, Last(run), t) && Spelling(table, t) == window[k..next]
    ensures IsRun(table, window, run + [t], next)
  {
    hide SpellingOf, Spelling, CanonicalPair;
    CanonicalSnoc(table, run, t);
    SpellingSnoc(table, run, t);
    hide Canonical;
    assert (run + [t])[0] == run[0];
    JoinedEnd(SpellingOf(table, run), window[k..next], k);
    assert window[..next] == window[..k] + window[k..next];
  }

  /** A word ending with the window's first k bytes, and one starting with the rest, hold the window at the seam. */
  lemma {:induction false} SeamHolds(text: Word, piece: Word, window: Word, k: nat)
    requires k <= |window| && EndsWith(text, window[..k]) && StartsWith(piece, window[k..])
    ensures OccursAt(text + piece, window, |text| - k)
  {
    var p := |text| - k;
    assert (text + piece)[p..p + |window|] == text[p..] + piece[..|window| - k];
    assert window == window[..k] + window[k..];
  }

  /** A token that covers the window's last byte after a run, starting elsewhere than the origin, is a miscovering. */
  lemma {:induction false} CoverMiscovers(
      table: seq<Merge>, window: Word, origin: nat, run: seq<Token>, k: nat, t: Token)
    requires PartsEarlier(table) && IsRun(table, window, run, k) && k != origin && t < ProductOf(|table|)
    requires CanonicalPair(table, |table|, Last(run), t) && StartsWith(Spelling(table, t), window[k..])
    ensures Under(run + [t], ProductOf(|table|)) && Under(run, ProductOf(|table|)) && k <= |SpellingOf(table, run)|
    ensures Miscovers(table, window, origin, SpellingOf(table, run + [t]), |SpellingOf(table, run)| - k)
  {
    hide SpellingOf, Spelling, CanonicalPair, OccursAt, Start;
    CanonicalSnoc(table, run, t);
    SpellingSnoc(table, run, t);
    SeamHolds(SpellingOf(table, run), Spelling(table, t), window, k);
    hide StartsWith;
    LastCovers(table, run, t, |SpellingOf(table, run)| - k + |window| - 1);
  }

  /** The last of the tokens covers the bytes past the others. */
  lemma {:induction false} LastCovers(table: seq<Merge>, run: seq<Token>, t: Token, x: nat)
    requires PartsEarlier(table) && Under(run, ProductOf(|table|)) && t < ProductOf(|table|)
    requires |SpellingOf(table, run)| <= x < |SpellingOf(table, run + [t])|
    ensures CoversByte(table, run + [t], |run|, x) && Start(table, run + [t], |run|) == |SpellingOf(table, run)|
  {
    var tokens, i := run + [t], |run|;
    assert tokens[..i] == run && tokens[..i + 1] == tokens;
  }

  /** The sole exception for one token over the whole window: both begin together and the origin is zero. */
  lemma {:induction false} HeldMiscovers(table: seq<Merge>, window: Word, origin: nat, t: Token, p: nat)
    requires PartsEarlier(table) && window != [] && t < ProductOf(|table|) && Canonical(table, |table|, [t])
    requires OccursAt(Spelling(table, t), window, p) && !(p == 0 && origin == 0)
    ensures Miscovers(table, window, origin, Spelling(table, t), p)
  {
    SpellingOfOne(table, t);
    assert [t][..0] == [] && [t][..1] == [t];
    assert CoversByte(table, [t], 0, p + |window| - 1);
    assert Start(table, [t], 0) == 0;
    hide SpellingOf, Spelling;
  }

  // ----- pieces of a text that holds the window -----

  /** The piece of the text from before the occurrence to inside it ends with a prefix of the window. */
  lemma {:induction false} PieceEnds(text: Word, window: Word, p: nat, a: nat, b: nat)
    requires OccursAt(text, window, p) && a <= p < b < p + |window|
    ensures EndsWith(text[a..b], window[..b - p])
  {
    assert text[a..b][|text[a..b]| - (b - p)..] == text[p..b];
    assert text[p..b] == text[p..p + |window|][..b - p];
  }

  /** The piece of the text inside the occurrence is the window's. */
  lemma {:induction false} PieceInside(text: Word, window: Word, p: nat, a: nat, b: nat)
    requires OccursAt(text, window, p) && p <= a <= b <= p + |window|
    ensures text[a..b] == window[a - p..b - p]
  {
    SliceOfSlice(text, p, p + |window|, a - p, b - p);
  }

  /** The piece of the text that begins inside the occurrence and passes its end starts with the rest of the window. */
  lemma {:induction false} PieceStarts(text: Word, window: Word, p: nat, a: nat, b: nat)
    requires OccursAt(text, window, p) && p <= a < p + |window| <= b <= |text|
    ensures StartsWith(text[a..b], window[a - p..])
  {
    assert text[a..b][..p + |window| - a] == text[a..p + |window|];
    assert text[a..p + |window|] == text[p..p + |window|][a - p..];
  }

  /** The window inside one piece of the text. */
  lemma {:induction false} PieceHolds(text: Word, window: Word, p: nat, a: nat, b: nat)
    requires OccursAt(text, window, p) && a <= p && p + |window| <= b <= |text|
    ensures OccursAt(text[a..b], window, p - a)
  {
    SliceOfSlice(text, a, b, p - a, p - a + |window|);
  }

  // ----- marked strings -----

  /** A marked string and an occurrence of the window in it. */
  datatype Found = Found(bytes: Word, boundaries: seq<bool>, occurrence: nat)

  /** The tokens' boundaries, none at the end: a byte is marked where a token past the first starts after it. */
  ghost predicate MarksTokens(table: seq<Merge>, tokens: seq<Token>, boundaries: seq<bool>)
    requires PartsEarlier(table) && Under(tokens, ProductOf(|table|))
  {
    && |boundaries| == |SpellingOf(table, tokens)|
    && forall x | 0 <= x < |boundaries| ::
         boundaries[x] <==> exists i | 0 < i < |tokens| :: Start(table, tokens, i) == x + 1
  }

  /** The marked string found is an encoding. */
  ghost predicate MarksEncoding(table: seq<Merge>, found: Found)
    requires PartsEarlier(table)
  {
    EncodedSpells(table, |table|, found.bytes);
    MarksTokens(table, Encoded(table, |table|, found.bytes), found.boundaries)
  }

  lemma {:induction false} TokenMarks(table: seq<Merge>, t: Token, p: nat)
    requires PartsEarlier(table) && t < ProductOf(|table|) && Canonical(table, |table|, [t])
    ensures MarksEncoding(table, Found(Spelling(table, t), seq(|Spelling(table, t)|, _ => false), p))
  {
    SpellingOfOne(table, t);
    hide Spelling, SpellingOf;
  }
}

/** Whether two byte-pair tables segment every text alike. */
module EncoderDivergence {
  import opened Options
  import opened Machine
  import opened MergeTable
  import opened MergePasses
  import opened TokenAutomaton

  /** The pieces the tokens cut a text into. */
  ghost function Pieces(table: seq<Merge>, tokens: seq<Token>): seq<Word>
    requires PartsEarlier(table) && Under(tokens, ProductOf(|table|))
  {
    seq(|tokens|, i requires 0 <= i < |tokens| => Spelling(table, tokens[i]))
  }

  /** The encoder's segmentation of a text. */
  ghost function Segments(table: seq<Merge>, text: Word): seq<Word>
    requires PartsEarlier(table)
  {
    EncodedSpells(table, |table|, text);
    Pieces(table, Encoded(table, |table|, text))
  }

  /** The encoder makes one token of the word. */
  ghost predicate OneToken(table: seq<Merge>, w: Word)
    requires PartsEarlier(table)
  {
    Segments(table, w) == [w]
  }

  /** The encoder makes the two words of the text they join to. */
  ghost predicate TwoTokens(table: seq<Merge>, l: Word, r: Word)
    requires PartsEarlier(table)
  {
    Segments(table, l + r) == [l, r]
  }

  lemma CanonicalSegments(table: seq<Merge>, tokens: seq<Token>)
    requires PartsEarlier(table) && Canonical(table, |table|, tokens)
    ensures Segments(table, SpellingOf(table, tokens)) == Pieces(table, tokens)
  {
  }

  /** Tokens cut alike are the same tokens. */
  lemma {:induction false} PiecesApart(table: seq<Merge>, s: seq<Token>, t: seq<Token>)
    requires Admissible(table) && Under(s, ProductOf(|table|)) && Under(t, ProductOf(|table|))
    requires Pieces(table, s) == Pieces(table, t)
    ensures s == t
  {
    assert |Pieces(table, s)| == |s| && |Pieces(table, t)| == |t|;
    hide Spelling;
    forall i | 0 <= i < |s| ensures s[i] == t[i] {
      assert Pieces(table, s)[i] == Spelling(table, s[i]) && Pieces(table, t)[i] == Spelling(table, t[i]);
      SpelledApart(table, s[i], t[i]);
    }
  }

  lemma {:induction false} TokenSegments(table: seq<Merge>, t: Token)
    requires Admissible(table) && t < ProductOf(|table|)
    ensures Canonical(table, |table|, [t]) <==> OneToken(table, Spelling(table, t))
  {
    var w := Spelling(table, t);
    SpellingOfOne(table, t);
    EncodedSpells(table, |table|, w);
    hide Spelling, SpellingOf, Encoded;
    assert Pieces(table, [t]) == [w];
    if OneToken(table, w) {
      PiecesApart(table, Encoded(table, |table|, w), [t]);
    }
  }

  lemma {:induction false} PairSegments(table: seq<Merge>, t: Token, u: Token)
    requires Admissible(table) && t < ProductOf(|table|) && u < ProductOf(|table|)
    ensures CanonicalPair(table, |table|, t, u) <==> TwoTokens(table, Spelling(table, t), Spelling(table, u))
  {
    var l, r := Spelling(table, t), Spelling(table, u);
    SpellingOfTwo(table, t, u);
    EncodedSpells(table, |table|, l + r);
    hide Spelling, SpellingOf, Encoded;
    assert Pieces(table, [t, u]) == [l, r];
    if TwoTokens(table, l, r) {
      PiecesApart(table, Encoded(table, |table|, l + r), [t, u]);
    }
  }

  /** A word made one token is the spelling of a canonical token. */
  lemma {:induction false} TokenOfOne(table: seq<Merge>, w: Word) returns (t: Token)
    requires Admissible(table) && OneToken(table, w)
    ensures t < ProductOf(|table|) && Spelling(table, t) == w && Canonical(table, |table|, [t])
  {
    var tokens := Encoded(table, |table|, w);
    EncodedSpells(table, |table|, w);
    EncodedIsCanonical(table, |table|, w);
    hide Spelling, SpellingOf, Encoded, Canonical;
    assert |Pieces(table, tokens)| == 1;
    t := tokens[0];
    assert tokens == [t] && Pieces(table, tokens)[0] == Spelling(table, t);
  }

  // ----- equal tokens and pairs mean equal segmentations -----

  ghost predicate SameTokens(a: seq<Merge>, b: seq<Merge>)
    requires PartsEarlier(a) && PartsEarlier(b)
  {
    forall w :: OneToken(a, w) <==> OneToken(b, w)
  }

  ghost predicate SamePair(a: seq<Merge>, b: seq<Merge>, l: Word, r: Word)
    requires PartsEarlier(a) && PartsEarlier(b)
  {
    OneToken(a, l) && OneToken(a, r) ==> (TwoTokens(a, l, r) <==> TwoTokens(b, l, r))
  }

  ghost predicate SamePairs(a: seq<Merge>, b: seq<Merge>)
    requires PartsEarlier(a) && PartsEarlier(b)
  {
    forall l, r :: SamePair(a, b, l, r)
  }

  /** The other table's tokens spelled as these are. */
  lemma {:induction false} Translated(a: seq<Merge>, b: seq<Merge>, s: seq<Token>) returns (t: seq<Token>)
    requires Admissible(a) && Admissible(b) && SameTokens(a, b)
    requires Under(s, ProductOf(|a|)) && forall i | 0 <= i < |s| :: OneToken(a, Spelling(a, s[i]))
    ensures Under(t, ProductOf(|b|)) && |t| == |s|
    ensures forall i | 0 <= i < |s| :: Spelling(b, t[i]) == Spelling(a, s[i]) && Canonical(b, |b|, [t[i]])
  {
    hide Spelling, Canonical, OneToken;
    if s == [] {
      t := [];
    } else {
      var front, last := s[..|s| - 1], s[|s| - 1];
      var rest := Translated(a, b, front);
      assert OneToken(a, Spelling(a, last)) && OneToken(b, Spelling(a, last));
      var one := TokenOfOne(b, Spelling(a, last));
      t := rest + [one];
    }
  }

  lemma {:induction false} TranslationSpells(a: seq<Merge>, b: seq<Merge>, s: seq<Token>, t: seq<Token>)
    requires PartsEarlier(a) && PartsEarlier(b) && Under(s, ProductOf(|a|)) && Under(t, ProductOf(|b|)) && |t| == |s|
    requires forall i | 0 <= i < |s| :: Spelling(b, t[i]) == Spelling(a, s[i])
    ensures SpellingOf(b, t) == SpellingOf(a, s)
  {
    hide Spelling;
    if s != [] {
      TranslationSpells(a, b, s[1..], t[1..]);
    }
  }

  /** Neighbours of one table's encoding are neighbours of the other's. */
  lemma {:induction false} NeighbourTranslates(a: seq<Merge>, b: seq<Merge>, s: seq<Token>, t: seq<Token>, i: nat)
    requires Admissible(a) && Admissible(b) && SamePairs(a, b) && Canonical(a, |a|, s)
    requires Under(t, ProductOf(|b|)) && |t| == |s| && i + 1 < |s|
    requires forall i | 0 <= i < |s| :: Spelling(b, t[i]) == Spelling(a, s[i])
    ensures CanonicalPair(b, |b|, t[i], t[i + 1])
  {
    Adjacency(a, |a|, s);
    assert Canonical(a, |a|, [s[i]]) && Canonical(a, |a|, [s[i + 1]]) && CanonicalPair(a, |a|, s[i], s[i + 1]);
    hide Spelling, Canonical, CanonicalPair, OneToken, TwoTokens;
    var l, r := Spelling(a, s[i]), Spelling(a, s[i + 1]);
    TokenSegments(a, s[i]);
    TokenSegments(a, s[i + 1]);
    PairSegments(a, s[i], s[i + 1]);
    PairSegments(b, t[i], t[i + 1]);
    assert SamePair(a, b, l, r);
  }

  /** Tables with the same canonical tokens and the same canonical pairs segment every text alike. */
  lemma {:induction false} SameSegments(a: seq<Merge>, b: seq<Merge>, text: Word)
    requires Admissible(a) && Admissible(b) && SameTokens(a, b) && SamePairs(a, b)
    ensures Segments(a, text) == Segments(b, text)
  {
    var s := Encoded(a, |a|, text);
    EncodedSpells(a, |a|, text);
    EncodedIsCanonical(a, |a|, text);
    Adjacency(a, |a|, s);
    hide Spelling, SpellingOf, Canonical, CanonicalPair, Encoded, OneToken, TwoTokens, SamePairs;
    forall i | 0 <= i < |s| ensures OneToken(a, Spelling(a, s[i])) {
      TokenSegments(a, s[i]);
    }
    var t := Translated(a, b, s);
    forall i | 0 <= i < |t| - 1 ensures CanonicalPair(b, |b|, t[i], t[i + 1]) {
      NeighbourTranslates(a, b, s, t, i);
    }
    Adjacency(b, |b|, t);
    TranslationSpells(a, b, s, t);
    CanonicalSegments(b, t);
    assert Pieces(b, t) == Pieces(a, s);
  }

  // ----- the comparison -----

  /** The first canonical token of one automaton that another does not hold canonical. */
  method LoneToken(holding: Automaton, lacking: Automaton) returns (spelling: Option<Word>)
    requires holding.Valid() && lacking.Valid()
    ensures spelling.Some? ==> OneToken(holding.table, spelling.value) && !OneToken(lacking.table, spelling.value)
    ensures spelling.None? ==> forall w | OneToken(holding.table, w) :: OneToken(lacking.table, w)
  {
    hide OneToken, Spelling, Canonical, TellsPairs;
    for token := 0 to |holding.entries|
      invariant forall t: nat | t < token && OneToken(holding.table, Spelling(holding.table, t)) ::
                  OneToken(lacking.table, Spelling(holding.table, t))
    {
      TokenSegments(holding.table, token);
      if holding.entries[token].target.Some? {
        var canonical := IsCanonical(lacking, holding.entries[token].spelling);
        if !canonical {
          return Some(holding.entries[token].spelling);
        }
      }
    }
    forall w | OneToken(holding.table, w) ensures OneToken(lacking.table, w) {
      var t := TokenOfOne(holding.table, w);
    }
    spelling := None;
  }

  /** Whether the automaton holds the spelling as a canonical token. */
  method IsCanonical(automaton: Automaton, spelling: Word) returns (canonical: bool)
    requires automaton.Valid()
    ensures canonical <==> OneToken(automaton.table, spelling)
  {
    hide OneToken, Spelling, Canonical, TellsPairs;
    var token := automaton.TokenOf(spelling);
    canonical := token.Some? && automaton.entries[token.value].target.Some?;
    if token.Some? {
      TokenSegments(automaton.table, token.value);
    } else if OneToken(automaton.table, spelling) {
      var t := TokenOfOne(automaton.table, spelling);
    }
  }

  /** A canonical token of one table and the other's token spelled alike, canonical too. */
  ghost predicate Images(a: seq<Merge>, b: seq<Merge>, t: Token, u: Token)
    requires PartsEarlier(a) && PartsEarlier(b)
  {
    && t < ProductOf(|a|) && u < ProductOf(|b|) && Spelling(a, t) == Spelling(b, u)
    && OneToken(a, Spelling(a, t)) && OneToken(b, Spelling(b, u))
  }

  /** The canonical tokens of the first automaton in number order, each with its image in the second. */
  ghost predicate ListsImages(a: seq<Merge>, b: seq<Merge>, canonical: seq<Token>, image: seq<Token>)
    requires PartsEarlier(a) && PartsEarlier(b)
  {
    |image| == |canonical| && forall i | 0 <= i < |canonical| :: Images(a, b, canonical[i], image[i])
  }

  ghost predicate ListsEvery(a: seq<Merge>, canonical: seq<Token>, bound: nat)
    requires PartsEarlier(a) && bound <= ProductOf(|a|)
  {
    forall t: nat | t < bound && OneToken(a, Spelling(a, t)) :: t in canonical
  }

  method ListImages(first: Automaton, second: Automaton) returns (canonical: seq<Token>, image: seq<Token>)
    requires first.Valid() && second.Valid() && SameTokens(first.table, second.table)
    ensures ListsImages(first.table, second.table, canonical, image)
    ensures ListsEvery(first.table, canonical, ProductOf(|first.table|))
  {
    hide OneToken, Spelling, TellsTokens, TellsPairs, SameTokens, Images, ListsImages, ListsEvery;
    canonical, image := [], [];
    NoneListed(first.table, second.table);
    for token := 0 to |first.entries|
      invariant ListsImages(first.table, second.table, canonical, image)
      invariant ListsEvery(first.table, canonical, token)
    {
      var held := IsCanonicalToken(first, token);
      if held {
        var found := ImageOf(first, second, token);
        ImageListed(first.table, second.table, canonical, image, token, found);
        canonical, image := canonical + [token], image + [found];
      } else {
        NoneMissed(first.table, canonical, token);
      }
    }
  }

  lemma NoneListed(a: seq<Merge>, b: seq<Merge>)
    requires PartsEarlier(a) && PartsEarlier(b)
    ensures ListsImages(a, b, [], []) && ListsEvery(a, [], 0)
  {
  }

  lemma {:induction false} ImageListed(
      a: seq<Merge>, b: seq<Merge>, canonical: seq<Token>, image: seq<Token>, t: Token, found: Token)
    requires PartsEarlier(a) && PartsEarlier(b) && Images(a, b, t, found)
    requires ListsImages(a, b, canonical, image) && ListsEvery(a, canonical, t)
    ensures ListsImages(a, b, canonical + [t], image + [found]) && ListsEvery(a, canonical + [t], t + 1)
  {
    hide OneToken, Spelling;
  }

  lemma {:induction false} NoneMissed(a: seq<Merge>, canonical: seq<Token>, t: Token)
    requires PartsEarlier(a) && t < ProductOf(|a|) && !OneToken(a, Spelling(a, t)) && ListsEvery(a, canonical, t)
    ensures ListsEvery(a, canonical, t + 1)
  {
    hide OneToken, Spelling;
  }

  method IsCanonicalToken(automaton: Automaton, token: Token) returns (canonical: bool)
    requires automaton.Valid() && token < |automaton.entries|
    ensures canonical <==> OneToken(automaton.table, Spelling(automaton.table, token))
  {
    hide OneToken, Spelling, Canonical, TellsPairs;
    TokenSegments(automaton.table, token);
    canonical := automaton.entries[token].target.Some?;
  }

  method ImageOf(first: Automaton, second: Automaton, token: Token) returns (found: Token)
    requires first.Valid() && second.Valid() && SameTokens(first.table, second.table)
    requires token < |first.entries| && OneToken(first.table, Spelling(first.table, token))
    ensures Images(first.table, second.table, token, found)
  {
    hide OneToken, Spelling, Canonical, TellsPairs;
    var image := second.TokenOf(first.entries[token].spelling);
    var t := TokenOfOne(second.table, Spelling(first.table, token));
    found := image.value;
  }

  /** Whether exactly one of the two holds the pair canonical. */
  method PairSplits(first: Automaton, second: Automaton, l: Token, r: Token, imageL: Token, imageR: Token)
    returns (differs: bool)
    requires first.Valid() && second.Valid()
    requires Images(first.table, second.table, l, imageL) && Images(first.table, second.table, r, imageR)
    ensures differs <==> !SamePair(first.table, second.table, Spelling(first.table, l), Spelling(first.table, r))
  {
    hide OneToken, TwoTokens, Spelling, Canonical, CanonicalPair, TellsPairs;
    var inFirst := first.MayFollow(l, r);
    var inSecond := second.MayFollow(imageL, imageR);
    PairSegments(first.table, l, r);
    PairSegments(second.table, imageL, imageR);
    differs := inFirst != inSecond;
  }

  /** The pair is held alike, or one split no longer than it is known. */
  ghost predicate Settled(a: seq<Merge>, b: seq<Merge>, l: Word, r: Word, shortest: Option<Word>)
    requires PartsEarlier(a) && PartsEarlier(b)
  {
    SamePair(a, b, l, r) || (shortest.Some? && |shortest.value| <= |l| + |r|)
  }

  ghost predicate SettledTokens(a: seq<Merge>, b: seq<Merge>, l: Token, r: Token, shortest: Option<Word>)
    requires PartsEarlier(a) && PartsEarlier(b)
  {
    && l < ProductOf(|a|) && r < ProductOf(|a|)
    && Settled(a, b, Spelling(a, l), Spelling(a, r), shortest)
  }

  ghost predicate SplitsHere(a: seq<Merge>, b: seq<Merge>, w: Word)
    requires PartsEarlier(a) && PartsEarlier(b)
  {
    exists l, r :: w == l + r && !SamePair(a, b, l, r)
  }

  /** Of the adjacent pairs the two automata disagree about, the least spelling. */
  method SplitPair(first: Automaton, second: Automaton) returns (shortest: Option<Word>)
    requires first.Valid() && second.Valid() && SameTokens(first.table, second.table)
    ensures shortest.Some? ==> SplitsHere(first.table, second.table, shortest.value)
    ensures forall l, r :: Settled(first.table, second.table, l, r, shortest)
  {
    hide Images, Spelling, SamePair, TellsTokens, TellsPairs;
    ghost var a, b := first.table, second.table;
    var canonical, image := ListImages(first, second);
    shortest := None;
    for i := 0 to |canonical|
      invariant shortest.Some? ==> SplitsHere(a, b, shortest.value)
      invariant forall x, y | 0 <= x < i && 0 <= y < |canonical| ::
        SettledTokens(a, b, canonical[x], canonical[y], shortest)
    {
      shortest := SplitRow(first, second, canonical, image, i, shortest);
    }
    EverySettled(a, b, canonical, image, shortest);
  }

  method SplitRow(
      first: Automaton, second: Automaton, canonical: seq<Token>, image: seq<Token>, i: nat, before: Option<Word>)
    returns (shortest: Option<Word>)
    requires first.Valid() && second.Valid() && ListsImages(first.table, second.table, canonical, image)
    requires i < |canonical|
    requires before.Some? ==> SplitsHere(first.table, second.table, before.value)
    requires forall x, y | 0 <= x < i && 0 <= y < |canonical| ::
               SettledTokens(first.table, second.table, canonical[x], canonical[y], before)
    ensures shortest.Some? ==> SplitsHere(first.table, second.table, shortest.value)
    ensures forall x, y | 0 <= x < i + 1 && 0 <= y < |canonical| ::
              SettledTokens(first.table, second.table, canonical[x], canonical[y], shortest)
  {
    hide Images, Spelling, SamePair, TellsTokens, TellsPairs;
    ghost var a, b := first.table, second.table;
    shortest := before;
    for j := 0 to |canonical|
      invariant shortest.Some? ==> SplitsHere(a, b, shortest.value)
      invariant forall x, y | 0 <= x < i && 0 <= y < |canonical| ::
        SettledTokens(a, b, canonical[x], canonical[y], shortest)
      invariant forall y | 0 <= y < j :: SettledTokens(a, b, canonical[i], canonical[y], shortest)
    {
      shortest := SplitOne(first, second, canonical[i], canonical[j], image[i], image[j], shortest);
    }
  }

  method SplitOne(
      first: Automaton, second: Automaton, l: Token, r: Token, imageL: Token, imageR: Token, before: Option<Word>)
    returns (shortest: Option<Word>)
    requires first.Valid() && second.Valid()
    requires Images(first.table, second.table, l, imageL) && Images(first.table, second.table, r, imageR)
    requires before.Some? ==> SplitsHere(first.table, second.table, before.value)
    ensures shortest.Some? ==> SplitsHere(first.table, second.table, shortest.value)
    ensures SettledTokens(first.table, second.table, l, r, shortest)
    ensures before.Some? ==> shortest.Some? && |shortest.value| <= |before.value|
  {
    hide OneToken, Spelling, SamePair, TellsPairs, Canonical;
    shortest := before;
    var differs := PairSplits(first, second, l, r, imageL, imageR);
    var left, right := first.entries[l].spelling, first.entries[r].spelling;
    if differs && (shortest.None? || |left| + |right| < |shortest.value|) {
      shortest := Some(left + right);
    }
  }

  lemma {:induction false} EverySettled(
      a: seq<Merge>, b: seq<Merge>, canonical: seq<Token>, image: seq<Token>, shortest: Option<Word>)
    requires Admissible(a) && PartsEarlier(b) && ListsEvery(a, canonical, ProductOf(|a|))
    requires forall x, y | 0 <= x < |canonical| && 0 <= y < |canonical| ::
               SettledTokens(a, b, canonical[x], canonical[y], shortest)
    ensures forall l, r :: Settled(a, b, l, r, shortest)
  {
    hide OneToken, TwoTokens, Spelling, Canonical;
    forall l, r ensures Settled(a, b, l, r, shortest) {
      if OneToken(a, l) && OneToken(a, r) {
        var t := TokenOfOne(a, l);
        var u := TokenOfOne(a, r);
        assert t in canonical && u in canonical;
        var x, y :| 0 <= x < |canonical| && 0 <= y < |canonical| && canonical[x] == t && canonical[y] == u;
        assert SettledTokens(a, b, canonical[x], canonical[y], shortest);
      }
    }
  }

  /** A text the two segment apart: of one token in exactly one of them, or a shortest one of two. */
  method FindDivergence(first: Automaton, second: Automaton) returns (text: Option<Word>)
    requires first.Valid() && second.Valid()
    ensures text.Some? ==> Segments(first.table, text.value) != Segments(second.table, text.value)
    ensures text.None? ==> forall w :: Segments(first.table, w) == Segments(second.table, w)
  {
    hide TwoTokens, SamePair, Segments, TellsTokens, TellsPairs;
    text := LoneToken(first, second);
    if text.Some? {
      return;
    }
    text := LoneToken(second, first);
    if text.Some? {
      return;
    }
    text := SplitPair(first, second);
    if text.Some? {
      SplitSegments(first.table, second.table, text.value);
    } else {
      AllSame(first.table, second.table);
    }
  }

  lemma {:induction false} SplitSegments(a: seq<Merge>, b: seq<Merge>, w: Word)
    requires PartsEarlier(a) && PartsEarlier(b) && SplitsHere(a, b, w)
    ensures Segments(a, w) != Segments(b, w)
  {
    hide Segments;
  }

  lemma {:induction false} AllSame(a: seq<Merge>, b: seq<Merge>)
    requires Admissible(a) && Admissible(b) && SameTokens(a, b)
    requires forall l, r :: Settled(a, b, l, r, None)
    ensures forall w :: Segments(a, w) == Segments(b, w)
  {
    hide Segments;
    assert forall l, r :: Settled(a, b, l, r, None) ==> SamePair(a, b, l, r);
    forall w ensures Segments(a, w) == Segments(b, w) {
      SameSegments(a, b, w);
    }
  }
}

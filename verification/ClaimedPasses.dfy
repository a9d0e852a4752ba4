/** One pass per merge over tokens that carry claimed boundaries: a claim inside a product is refused. */
module ClaimedPasses {
  import opened Options
  import opened Machine
  import opened MergeTable
  import opened MergePasses
  import opened TokenRuns

  /** A token and whether a boundary is claimed after it. */
  datatype Claimed = Claimed(token: Token, claim: bool)

  ghost predicate Known(table: seq<Merge>, s: seq<Claimed>) {
    forall i | 0 <= i < |s| :: s[i].token < ProductOf(|table|)
  }

  ghost function Tokens(s: seq<Claimed>): (r: seq<Token>)
    ensures |r| == |s|
  {
    if s == [] then [] else [s[0].token] + Tokens(s[1..])
  }

  lemma {:induction false} TokenAt(s: seq<Claimed>, i: nat)
    requires i < |s|
    ensures Tokens(s)[i] == s[i].token
  {
    if i > 0 {
      TokenAt(s[1..], i - 1);
    }
  }

  /** A token's bits: none claimed before its last byte. */
  ghost function BitsOf(length: nat, claim: bool): seq<bool>
    requires length > 0
  {
    seq(length - 1, _ => false) + [claim]
  }

  ghost function TokenBits(table: seq<Merge>, c: Claimed): seq<bool>
    requires PartsEarlier(table) && c.token < ProductOf(|table|)
  {
    SpelledNonempty(table, c.token);
    BitsOf(|Spelling(table, c.token)|, c.claim)
  }

  /** The claims byte by byte. */
  ghost function Bits(table: seq<Merge>, s: seq<Claimed>): seq<bool>
    requires PartsEarlier(table) && Known(table, s)
  {
    if s == [] then [] else TokenBits(table, s[0]) + Bits(table, s[1..])
  }

  ghost function Prepended(c: Claimed, rest: Option<seq<Claimed>>): Option<seq<Claimed>> {
    match rest
    case None => None
    case Some(s) => Some([c] + s)
  }

  /** One pass over claimed tokens: a join of parts with a boundary claimed between them is refused. */
  ghost function Joins(m: Merge, p: Token, s: seq<Claimed>): Option<seq<Claimed>> {
    if |s| >= 2 && s[0].token == m.left && s[1].token == m.right then
      if s[0].claim then None else Prepended(Claimed(p, s[1].claim), Joins(m, p, s[2..]))
    else if s == [] then Some([])
    else Prepended(s[0], Joins(m, p, s[1..]))
  }

  /** The passes of the merges from a rank on. */
  ghost function Flow(table: seq<Merge>, r: nat, s: seq<Claimed>): Option<seq<Claimed>>
    requires r <= |table|
    decreases |table| - r
  {
    if r == |table| then Some(s)
    else
      match Joins(table[r], ProductOf(r), s)
      case None => None
      case Some(out) => Flow(table, r + 1, out)
  }

  // ----- a pass keeps the claims, and refuses only one inside a product -----

  lemma {:induction false} JoinedBits(table: seq<Merge>, r: nat, claim: bool)
    requires PartsEarlier(table) && r < |table|
    ensures TokenBits(table, Claimed(ProductOf(r), claim)) ==
              TokenBits(table, Claimed(table[r].left, false)) + TokenBits(table, Claimed(table[r].right, claim))
  {
    SpellingOfProduct(table, r);
    SpelledNonempty(table, table[r].left);
    SpelledNonempty(table, table[r].right);
    hide Spelling;
  }

  lemma {:induction false} BitsAgree(table: seq<Merge>, c: Claimed, d: Claimed, s: seq<bool>, t: seq<bool>)
    requires PartsEarlier(table) && c.token == d.token < ProductOf(|table|)
    requires TokenBits(table, c) + s == TokenBits(table, d) + t
    ensures c == d && s == t
  {
    var b, e := TokenBits(table, c), TokenBits(table, d);
    SpelledNonempty(table, c.token);
    hide Spelling;
    assert |b| == |e|;
    assert (b + s)[|b| - 1] == b[|b| - 1] == c.claim;
    assert (e + t)[|e| - 1] == e[|e| - 1] == d.claim;
    assert (b + s)[|b|..] == s && (e + t)[|e|..] == t;
  }

  /** The two parts stand at the front. */
  predicate JoinsFront(m: Merge, s: seq<Claimed>) {
    |s| >= 2 && s[0].token == m.left && s[1].token == m.right
  }

  /** What one pass over the tokens does at the front. */
  lemma {:induction false} PassedFront(m: Merge, p: Token, s: seq<Claimed>)
    requires s != []
    ensures Passed(m, p, Tokens(s)) ==
              if JoinsFront(m, s) then [p] + Passed(m, p, Tokens(s[2..])) else [s[0].token] + Passed(m, p,
                Tokens(s[1..]))
  {
    var tokens := Tokens(s);
    assert tokens[0] == s[0].token && tokens[1..] == Tokens(s[1..]);
    if |s| >= 2 {
      assert s[1..][1..] == s[2..];
      assert tokens[1] == s[1].token && tokens[2..] == Tokens(s[2..]);
    }
  }

  lemma {:induction false} BitsFront(table: seq<Merge>, s: seq<Claimed>)
    requires PartsEarlier(table) && Known(table, s) && s != []
    ensures Known(table, s[1..]) && Bits(table, s) == TokenBits(table, s[0]) + Bits(table, s[1..])
    ensures |s| >= 2 ==>
              Known(table, s[2..]) && Bits(table, s) == TokenBits(table, s[0]) + (TokenBits(table, s[1]) + Bits(table,
                s[2..]))
  {
    hide TokenBits;
    if |s| >= 2 {
      assert s[1..][1..] == s[2..];
    }
  }

  lemma {:induction false} TokensFront(c: Claimed, s: seq<Claimed>)
    ensures Tokens([c] + s) == [c.token] + Tokens(s)
  {
    assert ([c] + s)[1..] == s;
  }

  lemma {:induction false} JoinsKeep(table: seq<Merge>, r: nat, s: seq<Claimed>, out: seq<Claimed>)
    requires PartsEarlier(table) && r < |table| && Known(table, s) && Joins(table[r], ProductOf(r), s) == Some(out)
    ensures Known(table, out) && Tokens(out) == Passed(table[r], ProductOf(r), Tokens(s))
    ensures Bits(table, out) == Bits(table, s)
    decreases |s|
  {
    hide TokenBits, Passed, Bits;
    var m, p := table[r], ProductOf(r);
    if s == [] {
      EmptyPassed(table, m, p);
    } else {
      BitsFront(table, s);
      PassedFront(m, p, s);
      var rest := if JoinsFront(m, s) then s[2..] else s[1..];
      var tail := Joins(m, p, rest).value;
      JoinsKeep(table, r, rest, tail);
      TokensFront(out[0], tail);
      KnownFront(table, out[0], tail);
      if JoinsFront(m, s) {
        JoinedBits(table, r, s[1].claim);
        assert TokenBits(table, out[0]) + Bits(table, tail) ==
               TokenBits(table, s[0]) + (TokenBits(table, s[1]) + Bits(table, tail));
      }
    }
  }

  lemma {:induction false} KnownFront(table: seq<Merge>, c: Claimed, s: seq<Claimed>)
    requires PartsEarlier(table) && c.token < ProductOf(|table|) && Known(table, s)
    ensures Known(table, [c] + s) && Bits(table, [c] + s) == TokenBits(table, c) + Bits(table, s)
  {
    hide TokenBits;
    assert ([c] + s)[1..] == s;
  }

  lemma EmptyPassed(table: seq<Merge>, m: Merge, p: Token)
    requires PartsEarlier(table)
    ensures Passed(m, p, []) == [] && Bits(table, []) == []
  {
  }

  /** The product's bits are its parts', none claimed between them. */
  lemma {:induction false} FrontJoins(
      table: seq<Merge>, r: nat, left: Claimed, right: Claimed, product: Claimed, rest: seq<bool>, more: seq<bool>)
    requires PartsEarlier(table) && r < |table|
    requires left.token == table[r].left && right.token == table[r].right && product.token == ProductOf(r)
    requires TokenBits(table, product) + more == TokenBits(table, left) + (TokenBits(table, right) + rest)
    ensures !left.claim && right.claim == product.claim && more == rest
  {
    hide TokenBits;
    JoinedBits(table, r, product.claim);
    var one, two := Claimed(table[r].left, false), Claimed(table[r].right, product.claim);
    assert TokenBits(table, product) + more == TokenBits(table, one) + (TokenBits(table, two) + more);
    BitsAgree(table, one, left, TokenBits(table, two) + more, TokenBits(table, right) + rest);
    BitsAgree(table, two, right, more, rest);
  }

  /** Where the pass's tokens can carry the claims at all, the pass is not refused and leaves those claims. */
  lemma {:induction false} JoinsComplete(table: seq<Merge>, r: nat, s: seq<Claimed>, out: seq<Claimed>)
    requires PartsEarlier(table) && r < |table| && Known(table, s) && Known(table, out)
    requires Tokens(out) == Passed(table[r], ProductOf(r), Tokens(s)) && Bits(table, out) == Bits(table, s)
    ensures Joins(table[r], ProductOf(r), s) == Some(out)
    decreases |s|
  {
    hide TokenBits, Passed, Bits;
    var m, p := table[r], ProductOf(r);
    if s == [] {
      EmptyPassed(table, m, p);
      assert |Tokens(out)| == 0;
    } else {
      PassedFront(m, p, s);
      assert |Tokens(out)| == |out| > 0;
      assert [out[0]] + out[1..] == out;
      TokensFront(out[0], out[1..]);
      BitsFront(table, s);
      BitsFront(table, out);
      assert Tokens(out)[1..] == Tokens(out[1..]);
      if JoinsFront(m, s) {
        FrontJoins(table, r, s[0], s[1], out[0], Bits(table, s[2..]), Bits(table, out[1..]));
        JoinsComplete(table, r, s[2..], out[1..]);
      } else {
        BitsAgree(table, out[0], s[0], Bits(table, out[1..]), Bits(table, s[1..]));
        JoinsComplete(table, r, s[1..], out[1..]);
      }
    }
  }

  // ----- all the passes -----

  lemma {:induction false} FlowKeeps(table: seq<Merge>, r: nat, s: seq<Claimed>, out: seq<Claimed>)
    requires PartsEarlier(table) && r <= |table| && Known(table, s) && Flow(table, r, s) == Some(out)
    ensures Known(table, out) && Tokens(out) == PassesFrom(table, r, |table|, Tokens(s))
    ensures Bits(table, out) == Bits(table, s)
    decreases |table| - r
  {
    hide Joins, Bits, Passed;
    if r < |table| {
      var next := Joins(table[r], ProductOf(r), s).value;
      JoinsKeep(table, r, s, next);
      FlowKeeps(table, r + 1, next, out);
    }
  }

  /** Claims on what a pass leaves are claims on what it read. */
  lemma {:induction false} ClaimsBefore(table: seq<Merge>, r: nat, tokens: seq<Token>, out: seq<Claimed>)
    returns (s: seq<Claimed>)
    requires PartsEarlier(table) && r < |table| && Under(tokens, ProductOf(|table|)) && Known(table, out)
    requires Tokens(out) == Passed(table[r], ProductOf(r), tokens)
    ensures Known(table, s) && Tokens(s) == tokens && Bits(table, s) == Bits(table, out)
    decreases |tokens|
  {
    hide TokenBits, Bits;
    var m, p := table[r], ProductOf(r);
    if tokens == [] {
      EmptyPassed(table, m, p);
      assert |Tokens(out)| == 0;
      s := [];
    } else {
      assert |Tokens(out)| == |out| > 0;
      assert [out[0]] + out[1..] == out;
      TokensFront(out[0], out[1..]);
      BitsFront(table, out);
      assert Tokens(out)[1..] == Tokens(out[1..]);
      if |tokens| >= 2 && tokens[0] == m.left && tokens[1] == m.right {
        var rest := ClaimsBefore(table, r, tokens[2..], out[1..]);
        JoinedBits(table, r, out[0].claim);
        s := PartsInFront(table, r, out[0].claim, rest);
        assert tokens == [m.left, m.right] + tokens[2..];
      } else {
        var rest := ClaimsBefore(table, r, tokens[1..], out[1..]);
        KnownFront(table, out[0], rest);
        TokensFront(out[0], rest);
        s := [out[0]] + rest;
      }
    }
  }

  lemma {:induction false} PartsInFront(table: seq<Merge>, r: nat, claim: bool, rest: seq<Claimed>)
    returns (s: seq<Claimed>)
    requires PartsEarlier(table) && r < |table| && Known(table, rest)
    ensures Known(table, s) && Tokens(s) == [table[r].left, table[r].right] + Tokens(rest)
    ensures Bits(table, s) == TokenBits(table, Claimed(ProductOf(r), claim)) + Bits(table, rest)
  {
    hide TokenBits, Bits;
    var left, right := Claimed(table[r].left, false), Claimed(table[r].right, claim);
    JoinedBits(table, r, claim);
    KnownFront(table, right, rest);
    TokensFront(right, rest);
    KnownFront(table, left, [right] + rest);
    TokensFront(left, [right] + rest);
    s := [left] + ([right] + rest);
    assert TokenBits(table, left) + (TokenBits(table, right) + Bits(table, rest))
           == TokenBits(table, left) + TokenBits(table, right) + Bits(table, rest);
  }

  /** The same for all the passes from a rank on. */
  lemma {:induction false} ClaimsBeforeAll(table: seq<Merge>, r: nat, tokens: seq<Token>, out: seq<Claimed>)
    returns (s: seq<Claimed>)
    requires PartsEarlier(table) && r <= |table| && Under(tokens, ProductOf(r)) && Known(table, out)
    requires Tokens(out) == PassesFrom(table, r, |table|, tokens)
    ensures Known(table, s) && Tokens(s) == tokens && Bits(table, s) == Bits(table, out)
    decreases |table| - r
  {
    hide Bits, Passed;
    if r == |table| {
      s := out;
    } else {
      PassedUnder(table[r], ProductOf(r), tokens);
      var next := ClaimsBeforeAll(table, r + 1, Passed(table[r], ProductOf(r), tokens), out);
      s := ClaimsBefore(table, r, tokens, next);
    }
  }

  lemma {:induction false} FlowCompletes(table: seq<Merge>, r: nat, s: seq<Claimed>, out: seq<Claimed>)
    requires PartsEarlier(table) && r <= |table| && Under(Tokens(s), ProductOf(r)) && Known(table, s)
    requires Known(table, out)
    requires Tokens(out) == PassesFrom(table, r, |table|, Tokens(s)) && Bits(table, out) == Bits(table, s)
    ensures Flow(table, r, s) == Some(out)
    decreases |table| - r
  {
    hide Joins, Bits, Passed;
    if r == |table| {
      SameBits(table, s, out);
    } else {
      PassedUnder(table[r], ProductOf(r), Tokens(s));
      var next := ClaimsBeforeAll(table, r + 1, Passed(table[r], ProductOf(r), Tokens(s)), out);
      JoinsComplete(table, r, s, next);
      FlowCompletes(table, r + 1, next, out);
    }
  }

  /** Claimed tokens are determined by the tokens and the claims byte by byte. */
  lemma {:induction false} SameBits(table: seq<Merge>, s: seq<Claimed>, t: seq<Claimed>)
    requires PartsEarlier(table) && Known(table, s) && Known(table, t) && Tokens(s) == Tokens(t)
    requires Bits(table, s) == Bits(table, t)
    ensures s == t
  {
    hide TokenBits, Bits;
    assert |s| == |Tokens(s)| == |Tokens(t)| == |t|;
    if s != [] {
      assert [s[0]] + s[1..] == s && [t[0]] + t[1..] == t;
      TokensFront(s[0], s[1..]);
      TokensFront(t[0], t[1..]);
      BitsFront(table, s);
      BitsFront(table, t);
      assert Tokens(s)[1..] == Tokens(s[1..]) && Tokens(t)[1..] == Tokens(t[1..]);
      BitsAgree(table, s[0], t[0], Bits(table, s[1..]), Bits(table, t[1..]));
      SameBits(table, s[1..], t[1..]);
    }
  }

  // ----- the claims a completed encoding carries -----

  /** Every token but the last has a boundary claimed after it. */
  ghost predicate Final(s: seq<Claimed>) {
    forall i | 0 <= i < |s| :: s[i].claim <==> i < |s| - 1
  }

  /** Once the passes are done, every token claims a boundary behind it and only the final one does not. */
  ghost predicate Encodes(table: seq<Merge>, s: seq<Claimed>) {
    var out := Flow(table, 0, s);
    out.Some? && Final(out.value)
  }

  lemma {:induction false} BitsJoin(table: seq<Merge>, s: seq<Claimed>, t: seq<Claimed>)
    requires PartsEarlier(table) && Known(table, s) && Known(table, t)
    ensures Known(table, s + t) && Bits(table, s + t) == Bits(table, s) + Bits(table, t)
  {
    hide TokenBits, Bits;
    if s == [] {
      assert s + t == t;
      EmptyPassed(table, Merge(0, 0), 0);
    } else {
      BitsFront(table, s);
      BitsJoin(table, s[1..], t);
      assert s + t == [s[0]] + (s[1..] + t);
      KnownFront(table, s[0], s[1..] + t);
      var b := TokenBits(table, s[0]);
      assert b + (Bits(table, s[1..]) + Bits(table, t)) == b + Bits(table, s[1..]) + Bits(table, t);
    }
  }

  lemma {:induction false} BitsLength(table: seq<Merge>, s: seq<Claimed>)
    requires PartsEarlier(table) && Known(table, s)
    ensures Under(Tokens(s), ProductOf(|table|)) && |Bits(table, s)| == |SpellingOf(table, Tokens(s))|
  {
    if s != [] {
      BitsLength(table, s[1..]);
      SpelledNonempty(table, s[0].token);
      hide Spelling;
    }
  }

  lemma {:induction false} TokensPart(s: seq<Claimed>, i: nat)
    requires i <= |s|
    ensures Tokens(s)[..i] == Tokens(s[..i])
  {
    if i > 0 {
      assert s[..i][1..] == s[1..][..i - 1];
      TokensPart(s[1..], i - 1);
    }
  }

  /** A byte's bit is its token's claim at the token's end, and unset before it. */
  lemma {:induction false} BitAt(table: seq<Merge>, s: seq<Claimed>, i: nat, x: nat)
    requires PartsEarlier(table) && Known(table, s) && i < |s| && Under(Tokens(s), ProductOf(|table|))
    requires CoversByte(table, Tokens(s), i, x)
    ensures x < |Bits(table, s)|
    ensures Bits(table, s)[x] <==> x + 1 == Start(table, Tokens(s), i + 1) && s[i].claim
  {
    var front, rest := s[..i], s[i + 1..];
    assert s == front + ([s[i]] + rest);
    KnownFront(table, s[i], rest);
    BitsJoin(table, front, [s[i]] + rest);
    BitsLength(table, front);
    TokensPart(s, i);
    TokenAt(s, i);
    StartNext(table, Tokens(s), i);
    SpelledNonempty(table, s[i].token);
    hide Bits, Spelling, SpellingOf, Tokens;
    var before := |Bits(table, front)|;
    assert before == Start(table, Tokens(s), i);
    assert Bits(table, s)[x] == TokenBits(table, s[i])[x - before];
  }

  /** The claims are those of a completed encoding exactly where the bits mark the tokens' boundaries. */
  lemma {:induction false} FinalMarks(table: seq<Merge>, s: seq<Claimed>)
    requires PartsEarlier(table) && Known(table, s) && Under(Tokens(s), ProductOf(|table|))
    ensures Final(s) <==> MarksTokens(table, Tokens(s), Bits(table, s))
  {
    var tokens, bits := Tokens(s), Bits(table, s);
    BitsLength(table, s);
    if Final(s) {
      FinalIsMarked(table, s);
    }
    if MarksTokens(table, tokens, bits) {
      MarkedIsFinal(table, s);
    }
  }

  lemma {:induction false} FinalIsMarked(table: seq<Merge>, s: seq<Claimed>)
    requires PartsEarlier(table) && Known(table, s) && Under(Tokens(s), ProductOf(|table|)) && Final(s)
    ensures MarksTokens(table, Tokens(s), Bits(table, s))
  {
    hide Bits, Spelling, SpellingOf, Tokens;
    var tokens, bits := Tokens(s), Bits(table, s);
    BitsLength(table, s);
    StartEnds(table, tokens);
    forall x | 0 <= x < |bits| ensures bits[x] <==> exists j | 0 < j < |tokens| :: Start(table, tokens, j) == x + 1 {
      var i := SomeCovers(table, tokens, x, |tokens|);
      BitAt(table, s, i, x);
      NextStart(table, tokens, i, x);
    }
  }

  /** Inside the i-th token only its end is a start, the next token's. */
  lemma {:induction false} NextStart(table: seq<Merge>, tokens: seq<Token>, i: nat, x: nat)
    requires PartsEarlier(table) && Under(tokens, ProductOf(|table|)) && CoversByte(table, tokens, i, x)
    ensures forall j | 0 < j < |tokens| && Start(table, tokens, j) == x + 1 :: j == i + 1
  {
    hide Start;
    forall j | 0 < j < |tokens| && Start(table, tokens, j) == x + 1 ensures j == i + 1 {
      if j <= i {
        StartsIncrease(table, tokens, j, i);
      } else {
        StartsIncrease(table, tokens, i + 1, j);
      }
    }
  }

  lemma {:induction false} MarkedIsFinal(table: seq<Merge>, s: seq<Claimed>)
    requires PartsEarlier(table) && Known(table, s) && Under(Tokens(s), ProductOf(|table|))
    requires MarksTokens(table, Tokens(s), Bits(table, s))
    ensures Final(s)
  {
    hide Bits, Spelling, SpellingOf, Tokens;
    var tokens, bits := Tokens(s), Bits(table, s);
    forall i | 0 <= i < |s| ensures s[i].claim <==> i < |s| - 1 {
      StartNext(table, tokens, i);
      var x := Start(table, tokens, i + 1) - 1;
      assert CoversByte(table, tokens, i, x);
      BitAt(table, s, i, x);
      NextStart(table, tokens, i, x);
    }
  }

  // ----- claimed bytes -----

  ghost predicate IsBytes(s: seq<Claimed>) {
    forall i | 0 <= i < |s| :: s[i].token < BYTES
  }

  ghost function ByteOf(c: Claimed): Byte
    requires c.token < BYTES
  {
    c.token
  }

  ghost function BytesOf(s: seq<Claimed>): Word
    requires IsBytes(s)
  {
    seq(|s|, i requires 0 <= i < |s| => ByteOf(s[i]))
  }

  ghost function Claims(s: seq<Claimed>): seq<bool> {
    seq(|s|, i requires 0 <= i < |s| => s[i].claim)
  }

  lemma {:induction false} BytesStream(table: seq<Merge>, s: seq<Claimed>)
    requires PartsEarlier(table) && IsBytes(s)
    ensures Known(table, s) && Tokens(s) == BytesOf(s) && Bits(table, s) == Claims(s)
  {
    if s != [] {
      BytesStream(table, s[1..]);
      ByteBits(table, s[0]);
      hide TokenBits;
      assert Claims(s) == [s[0].claim] + Claims(s[1..]);
      assert BytesOf(s) == [ByteOf(s[0])] + BytesOf(s[1..]);
    }
  }

  lemma {:induction false} ByteBits(table: seq<Merge>, c: Claimed)
    requires PartsEarlier(table) && c.token < BYTES
    ensures TokenBits(table, c) == [c.claim]
  {
    assert |Spelling(table, c.token)| == 1;
    hide Spelling;
  }

  /** The tokens of an encoding with a boundary claimed after every one but the last. */
  lemma {:induction false} Claiming(tokens: seq<Token>) returns (s: seq<Claimed>)
    ensures Tokens(s) == tokens && Final(s)
  {
    if tokens == [] {
      s := [];
    } else {
      var rest := Claiming(tokens[1..]);
      var front := Claimed(tokens[0], |tokens| > 1);
      s := [front] + rest;
      TokensFront(front, rest);
      assert |rest| == |Tokens(rest)|;
      hide Tokens;
      forall i | 0 <= i < |s| ensures s[i].claim <==> i < |s| - 1 {
        assert i > 0 ==> s[i] == rest[i - 1];
      }
    }
  }

  /** Marks of the same boundaries are the same marks. */
  lemma {:induction false} MarksAgree(table: seq<Merge>, tokens: seq<Token>, a: seq<bool>, b: seq<bool>)
    requires PartsEarlier(table) && Under(tokens, ProductOf(|table|))
    requires MarksTokens(table, tokens, a) && MarksTokens(table, tokens, b)
    ensures a == b
  {
    hide Start, SpellingOf;
    assert forall x | 0 <= x < |a| :: a[x] == b[x];
  }

  /**
    Claimed bytes pass through every stage and end complete exactly where the
    claims are the interior boundaries of the bytes' encoding.
   */
  lemma {:induction false} EncodesIsEncoding(table: seq<Merge>, s: seq<Claimed>)
    requires PartsEarlier(table) && IsBytes(s)
    ensures Under(Encoded(table, |table|, BytesOf(s)), ProductOf(|table|))
    ensures Encodes(table, s) <==> MarksTokens(table, Encoded(table, |table|, BytesOf(s)), Claims(s))
  {
    BytesStream(table, s);
    var tokens := Encoded(table, |table|, BytesOf(s));
    EncodedSpells(table, |table|, BytesOf(s));
    PassesAfter(table, 0, |table|, BytesOf(s));
    assert Encoded(table, 0, BytesOf(s)) == BytesOf(s);
    hide Encoded, Flow, Bits, Final, MarksTokens, PassesFrom, Tokens;
    if Encodes(table, s) {
      var out := Flow(table, 0, s).value;
      FlowKeeps(table, 0, s, out);
      FinalMarks(table, out);
    }
    if MarksTokens(table, tokens, Claims(s)) {
      var out := Claiming(tokens);
      ClaimingKnown(table, out);
      FinalMarks(table, out);
      MarksAgree(table, tokens, Bits(table, out), Claims(s));
      FlowCompletes(table, 0, s, out);
    }
  }

  lemma {:induction false} ClaimingKnown(table: seq<Merge>, s: seq<Claimed>)
    requires Under(Tokens(s), ProductOf(|table|))
    ensures Known(table, s)
  {
    forall i | 0 <= i < |s| ensures s[i].token < ProductOf(|table|) {
      TokenAt(s, i);
    }
  }
}

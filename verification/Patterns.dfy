/** Regular expressions as the tools write them out, and the words they match. */
module Patterns {
  /** A code point. */
  type Symbol = nat
  type Text = seq<Symbol>

  datatype Expression =
    | Empty
    | Class(members: set<Symbol>)
    | Either(left: Expression, right: Expression)
    | Maybe(inner: Expression)
    | Then(first: Expression, rest: Expression)
    | Star(inner: Expression)

  ghost predicate Spells(r: Expression, w: Text)
    decreases r, |w|
  {
    match r
    case Empty => w == []
    case Class(members) => |w| == 1 && w[0] in members
    case Either(left, right) => Spells(left, w) || Spells(right, w)
    case Maybe(inner) => w == [] || Spells(inner, w)
    case Then(first, rest) => exists c: nat :: c <= |w| && Spells(first, w[..c]) && Spells(rest, w[c..])
    case Star(inner) => w == [] || exists c: nat :: 0 < c <= |w| && Spells(inner, w[..c]) && Spells(Star(inner), w[c..])
  }

  lemma {:induction false} ThenJoins(first: Expression, rest: Expression, u: Text, v: Text)
    requires Spells(first, u) && Spells(rest, v)
    ensures Spells(Then(first, rest), u + v)
  {
    var w, c := u + v, |u|;
    assert w[..c] == u && w[c..] == v;
  }

  lemma {:induction false} ThenSplits(first: Expression, rest: Expression, w: Text) returns (c: nat)
    requires Spells(Then(first, rest), w)
    ensures c <= |w| && Spells(first, w[..c]) && Spells(rest, w[c..])
  {
    c :| c <= |w| && Spells(first, w[..c]) && Spells(rest, w[c..]);
  }

  /** One repetition in front of others, possibly of the empty word. */
  lemma {:induction false} StarJoins(inner: Expression, u: Text, v: Text)
    requires Spells(inner, u) && Spells(Star(inner), v)
    ensures Spells(Star(inner), u + v)
  {
    var w, c := u + v, |u|;
    assert w[..c] == u && w[c..] == v;
    if c == 0 {
      assert w == v;
    }
  }

  lemma {:induction false} StarSplits(inner: Expression, w: Text) returns (c: nat)
    requires Spells(Star(inner), w) && w != []
    ensures 0 < c <= |w| && Spells(inner, w[..c]) && Spells(Star(inner), w[c..])
  {
    c :| 0 < c <= |w| && Spells(inner, w[..c]) && Spells(Star(inner), w[c..]);
  }
}

/** Patterns and the words they match. */
module Regexes {
  import opened Machine
  import opened Nfas

  datatype Kind =
    | Kleene
    | Plus
    | Optional
    | Exact(count: nat)
    | AtLeast(min: nat)
    | Range(low: nat, high: nat)

  datatype Regex =
    | AnyOf(symbols: set<Byte>)
    | Text(text: Word)
    | Concat(regexes: seq<Regex>)
    | Choice(regexes: seq<Regex>)
    | Repeat(kind: Kind, regex: Regex)

  /** The numbers of copies a repetition takes. */
  predicate Takes(kind: Kind, n: nat) {
    match kind
    case Kleene => true
    case Plus => n >= 1
    case Optional => n <= 1
    case Exact(count) => n == count
    case AtLeast(min) => n >= min
    case Range(low, high) => low <= n <= high
  }

  ghost predicate Denotes(r: Regex, w: Word)
    decreases r
  {
    match r
    case AnyOf(symbols) => |w| == 1 && w[0] in symbols
    case Text(text) => w == text
    case Concat(regexes) =>
      exists parts: seq<Word> ::
        |parts| == |regexes| && Flat(parts) == w && forall i: nat | i < |regexes| :: Denotes(regexes[i], parts[i])
    case Choice(regexes) => exists i: nat :: i < |regexes| && Denotes(regexes[i], w)
    case Repeat(kind, regex) =>
      exists parts: seq<Word> ::
        Takes(kind, |parts|) && Flat(parts) == w && forall i: nat | i < |parts| :: Denotes(regex, parts[i])
  }

  // ----- words matched in turn -----

  /** One part for each pattern, in order. */
  ghost predicate Parted(regexes: seq<Regex>, parts: seq<Word>) {
    |parts| == |regexes| && forall i: nat | i < |regexes| :: Denotes(regexes[i], parts[i])
  }

  ghost predicate InTurn(regexes: seq<Regex>, w: Word) {
    exists parts :: Parted(regexes, parts) && Flat(parts) == w
  }

  ghost function Copies(r: Regex, n: nat): (rs: seq<Regex>)
    ensures |rs| == n && forall i | 0 <= i < n :: rs[i] == r
  {
    seq(n, _ => r)
  }

  lemma {:induction false} CopiesSnoc(r: Regex, n: nat)
    ensures Copies(r, n + 1) == Copies(r, n) + [r]
  {
  }

  lemma {:induction false} ConcatInTurn(regexes: seq<Regex>, w: Word)
    ensures Denotes(Concat(regexes), w) <==> InTurn(regexes, w)
  {
    if InTurn(regexes, w) {
      var parts :| Parted(regexes, parts) && Flat(parts) == w;
    }
    if Denotes(Concat(regexes), w) {
      var parts: seq<Word> :|
        |parts| == |regexes| && Flat(parts) == w && forall i: nat | i < |regexes| :: Denotes(regexes[i], parts[i]);
      assert Parted(regexes, parts);
    }
  }

  /** Some number of copies the repetition takes. */
  ghost predicate Repeated(kind: Kind, r: Regex, w: Word) {
    exists n: nat :: Takes(kind, n) && InTurn(Copies(r, n), w)
  }

  lemma {:induction false} RepeatInTurn(kind: Kind, r: Regex, w: Word)
    ensures Denotes(Repeat(kind, r), w) <==> Repeated(kind, r, w)
  {
    if Denotes(Repeat(kind, r), w) {
      var parts: seq<Word> :|
        Takes(kind, |parts|) && Flat(parts) == w && forall i: nat | i < |parts| :: Denotes(r, parts[i]);
      assert Parted(Copies(r, |parts|), parts);
      assert InTurn(Copies(r, |parts|), w);
    }
    if n: nat :| Takes(kind, n) && InTurn(Copies(r, n), w) {
      var parts :| Parted(Copies(r, n), parts) && Flat(parts) == w;
      assert forall i: nat | i < |parts| :: Copies(r, n)[i] == r;
    }
  }

  lemma {:induction false} NothingInTurn(w: Word)
    ensures InTurn([], w) <==> w == []
  {
    if w == [] {
      assert Parted([], []);
    }
  }

  /** One pattern more, after the others. */
  lemma {:induction false} InTurnSnoc(regexes: seq<Regex>, r: Regex, w: Word)
    ensures InTurn(regexes + [r], w) <==> exists c: nat :: SplitInTurn(regexes, r, w, c)
  {
    var all := regexes + [r];
    if InTurn(all, w) {
      var parts :| Parted(all, parts) && Flat(parts) == w;
      var front, last := parts[..|regexes|], parts[|regexes|];
      assert parts == front + [last];
      FlatSnoc(front, last);
      assert Parted(regexes, front) by {
        forall i: nat | i < |regexes| ensures Denotes(regexes[i], front[i]) {
          assert all[i] == regexes[i];
        }
      }
      assert all[|regexes|] == r;
      var c := |Flat(front)|;
      assert w[..c] == Flat(front) && w[c..] == last;
      assert SplitInTurn(regexes, r, w, c);
    }
    if c: nat :| SplitInTurn(regexes, r, w, c) {
      InTurnJoin(regexes, r, w[..c], w[c..]);
      assert w[..c] + w[c..] == w;
    }
  }

  ghost predicate SplitInTurn(regexes: seq<Regex>, r: Regex, w: Word, c: nat) {
    c <= |w| && InTurn(regexes, w[..c]) && Denotes(r, w[c..])
  }

  lemma {:induction false} InTurnJoin(regexes: seq<Regex>, r: Regex, u: Word, v: Word)
    requires InTurn(regexes, u) && Denotes(r, v)
    ensures InTurn(regexes + [r], u + v)
  {
    var parts :| Parted(regexes, parts) && Flat(parts) == u;
    FlatSnoc(parts, v);
    assert Parted(regexes + [r], parts + [v]);
  }

  /** Copies after copies. */
  lemma {:induction false} CopiesJoin(r: Regex, m: nat, n: nat, u: Word, v: Word)
    requires InTurn(Copies(r, m), u) && InTurn(Copies(r, n), v)
    ensures InTurn(Copies(r, m + n), u + v)
    decreases n
  {
    hide InTurn, Copies, Denotes;
    if n == 0 {
      NothingInTurn(v);
      assert Copies(r, 0) == [];
      assert u + v == u;
    } else {
      CopiesSnoc(r, n - 1);
      InTurnSnoc(Copies(r, n - 1), r, v);
      var c: nat :| SplitInTurn(Copies(r, n - 1), r, v, c);
      CopiesJoin(r, m, n - 1, u, v[..c]);
      InTurnJoin(Copies(r, m + n - 1), r, u + v[..c], v[c..]);
      CopiesSnoc(r, m + n - 1);
      assert u + v[..c] + v[c..] == u + v;
    }
  }

  /** Copies split after any number of them. */
  lemma {:induction false} CopiesSplit(r: Regex, m: nat, n: nat, w: Word) returns (c: nat)
    requires InTurn(Copies(r, m + n), w)
    ensures c <= |w| && InTurn(Copies(r, m), w[..c]) && InTurn(Copies(r, n), w[c..])
    decreases n
  {
    hide InTurn, Copies, Denotes;
    if n == 0 {
      c := |w|;
      assert w[..c] == w;
      NothingInTurn(w[c..]);
      assert Copies(r, 0) == [];
    } else {
      CopiesSnoc(r, m + n - 1);
      InTurnSnoc(Copies(r, m + n - 1), r, w);
      var d: nat :| SplitInTurn(Copies(r, m + n - 1), r, w, d);
      c := CopiesSplit(r, m, n - 1, w[..d]);
      assert w[..d][..c] == w[..c];
      InTurnJoin(Copies(r, n - 1), r, w[..d][c..], w[d..]);
      assert w[..d][c..] + w[d..] == w[c..];
      CopiesSnoc(r, n - 1);
    }
  }
}

/** Reduced words of the free group, kept by a stack that cancels a letter against its inverse. */
module FreeGroup {
  type Letters = seq<int>

  ghost predicate Nonzero(w: Letters) {
    forall i | 0 <= i < |w| :: w[i] != 0
  }

  ghost predicate Positive(w: Letters) {
    forall i | 0 <= i < |w| :: w[i] > 0
  }

  /** No letter stands beside its inverse. */
  ghost predicate Reduced(w: Letters) {
    Nonzero(w) && forall i | 0 <= i < |w| - 1 :: w[i] != -w[i + 1]
  }

  function Push(s: Letters, x: int): Letters {
    if s != [] && s[|s| - 1] == -x then s[..|s| - 1] else s + [x]
  }

  /** The stack after pushing a word's letters in order. */
  ghost function Act(s: Letters, w: Letters): Letters {
    if w == [] then s else Push(Act(s, w[..|w| - 1]), w[|w| - 1])
  }

  ghost function Reduce(w: Letters): Letters {
    Act([], w)
  }

  /** The inverse word: the letters reversed, each inverted. */
  ghost function Inverse(w: Letters): Letters {
    if w == [] then [] else Inverse(w[1..]) + [-w[0]]
  }

  lemma PushReduced(s: Letters, x: int)
    requires Reduced(s) && x != 0
    ensures Reduced(Push(s, x))
  {
  }

  lemma {:induction false} ActReduced(s: Letters, w: Letters)
    requires Reduced(s) && Nonzero(w)
    ensures Reduced(Act(s, w))
  {
    if w != [] {
      ActReduced(s, w[..|w| - 1]);
    }
  }

  lemma {:induction false} ActJoin(s: Letters, u: Letters, v: Letters)
    ensures Act(s, u + v) == Act(Act(s, u), v)
  {
    if v == [] {
      assert u + v == u;
    } else {
      assert (u + v)[..|u + v| - 1] == u + v[..|v| - 1];
      ActJoin(s, u, v[..|v| - 1]);
    }
  }

  lemma {:induction false} ActOne(s: Letters, x: int)
    ensures Act(s, [x]) == Push(s, x)
  {
    assert [x][..0] == [];
  }

  lemma {:induction false} PushBack(s: Letters, x: int)
    requires Reduced(s) && x != 0
    ensures Push(Push(s, x), -x) == s
  {
    if s != [] && s[|s| - 1] == -x {
      assert s == s[..|s| - 1] + [-x];
    } else {
      assert (s + [x])[..|s|] == s;
    }
  }

  /** A word acts as its reduction does. */
  lemma {:induction false} ActReduce(s: Letters, w: Letters)
    requires Reduced(s) && Nonzero(w)
    ensures Act(s, Reduce(w)) == Act(s, w)
  {
    if w != [] {
      var front, x := w[..|w| - 1], w[|w| - 1];
      var r := Reduce(front);
      ActReduce(s, front);
      ActReduced([], front);
      if r != [] && r[|r| - 1] == -x {
        var rest := r[..|r| - 1];
        ActReduced(s, rest);
        PushBack(Act(s, rest), -x);
      } else {
        assert (r + [x])[..|r|] == r;
      }
    }
  }

  lemma {:induction false} InverseJoin(u: Letters, v: Letters)
    ensures Inverse(u + v) == Inverse(v) + Inverse(u)
  {
    if u == [] {
      assert u + v == v && Inverse(v) + [] == Inverse(v);
    } else {
      assert (u + v)[1..] == u[1..] + v;
      InverseJoin(u[1..], v);
      assert Inverse(v) + Inverse(u[1..]) + [-u[0]] == Inverse(v) + (Inverse(u[1..]) + [-u[0]]);
    }
  }

  lemma {:induction false} InverseNonzero(w: Letters)
    requires Nonzero(w)
    ensures Nonzero(Inverse(w)) && |Inverse(w)| == |w|
  {
    if w != [] {
      InverseNonzero(w[1..]);
    }
  }

  /** A word followed by its inverse acts as nothing. */
  lemma {:induction false} ActInverse(s: Letters, w: Letters)
    requires Reduced(s) && Nonzero(w)
    ensures Act(s, w + Inverse(w)) == s
    decreases w
  {
    InverseNonzero(w);
    if w == [] {
      assert w + Inverse(w) == [];
    } else {
      var x, rest := w[0], w[1..];
      assert w + Inverse(w) == [x] + ((rest + Inverse(rest)) + [-x]);
      InverseNonzero(rest);
      ActJoin(s, [x], (rest + Inverse(rest)) + [-x]);
      ActOne(s, x);
      PushReduced(s, x);
      ActJoin(Push(s, x), rest + Inverse(rest), [-x]);
      ActInverse(Push(s, x), rest);
      ActOne(Push(s, x), -x);
      PushBack(s, x);
    }
  }

  /** An inverse followed by its word acts as nothing. */
  lemma {:induction false} ActInverseFirst(s: Letters, w: Letters)
    requires Reduced(s) && Nonzero(w)
    ensures Act(s, Inverse(w) + w) == s
  {
    InverseNonzero(w);
    if w == [] {
      assert Inverse(w) + w == [];
    } else {
      var x, rest := w[0], w[1..];
      InverseNonzero(rest);
      assert Inverse(w) + w == Inverse(rest) + ([-x] + ([x] + rest));
      ActJoin(s, Inverse(rest), [-x] + ([x] + rest));
      ActReduced(s, Inverse(rest));
      var t := Act(s, Inverse(rest));
      ActJoin(t, [-x], [x] + rest);
      ActJoin(Act(t, [-x]), [x], rest);
      ActOne(t, -x);
      ActOne(Push(t, -x), x);
      PushBack(t, -x);
      ActJoin(s, Inverse(rest), rest);
      ActInverseFirst(s, rest);
    }
  }

  // ----- delays -----

  /** The delay of the outputs h and g: the reduced word of h's inverse and g. */
  ghost function Delay(h: Letters, g: Letters): Letters {
    Reduce(Inverse(h) + g)
  }

  /** A delay extended by one more output on either side. */
  ghost function Extended(delay: Letters, h: Letters, g: Letters): Letters {
    Reduce(Inverse(h) + delay + g)
  }

  lemma {:induction false} NonzeroJoin(u: Letters, v: Letters)
    requires Nonzero(u) && Nonzero(v)
    ensures Nonzero(u + v)
  {
    assert forall i | 0 <= i < |u| :: (u + v)[i] == u[i];
    assert forall i | |u| <= i < |u + v| :: (u + v)[i] == v[i - |u|];
  }

  /** A part of a word may be reduced first. */
  lemma {:induction false} ReduceInside(u: Letters, w: Letters, v: Letters)
    requires Nonzero(u) && Nonzero(w)
    ensures Reduce(u + Reduce(w) + v) == Reduce(u + w + v)
  {
    ActJoin([], u + Reduce(w), v);
    ActJoin([], u, Reduce(w));
    ActJoin([], u + w, v);
    ActJoin([], u, w);
    ActReduced([], u);
    ActReduce(Act([], u), w);
  }

  /** Extending a delay is the delay of the longer outputs. */
  lemma {:induction false} ExtendedDelay(a: Letters, b: Letters, h: Letters, g: Letters)
    requires Nonzero(a) && Nonzero(b) && Nonzero(h) && Nonzero(g)
    ensures Extended(Delay(a, b), h, g) == Delay(a + h, b + g)
  {
    InverseNonzero(a);
    InverseNonzero(h);
    NonzeroJoin(Inverse(a), b);
    ReduceInside(Inverse(h), Inverse(a) + b, g);
    InverseJoin(a, h);
    assert Inverse(h) + (Inverse(a) + b) + g == Inverse(h) + Inverse(a) + (b + g);
  }

  /** A reduced word is its own reduction. */
  lemma {:induction false} ReducedStays(w: Letters)
    requires Reduced(w)
    ensures Reduce(w) == w
  {
    if w != [] {
      var front := w[..|w| - 1];
      ReducedStays(front);
      assert front + [w[|w| - 1]] == w;
    }
  }

  /** A word between a word and its inverse on either side reduces to itself. */
  lemma {:induction false} InverseAround(delay: Letters, h: Letters, g: Letters)
    requires Reduced(delay) && Nonzero(h) && Nonzero(g)
    ensures Reduce((h + Inverse(h)) + (delay + (g + Inverse(g)))) == delay
  {
    hide Inverse;
    ActJoin([], h + Inverse(h), delay + (g + Inverse(g)));
    ActInverse([], h);
    ActJoin([], delay, g + Inverse(g));
    ReducedStays(delay);
    ActInverse(delay, g);
  }

  /** Extending by the same outputs loses nothing: the delay before can be read off the one after. */
  lemma {:induction false} ExtendedBack(delay: Letters, h: Letters, g: Letters)
    requires Reduced(delay) && Nonzero(h) && Nonzero(g)
    ensures Reduce(h + Extended(delay, h, g) + Inverse(g)) == delay
  {
    hide Inverse, Reduce;
    InverseNonzero(h);
    NonzeroJoin(Inverse(h), delay);
    NonzeroJoin(Inverse(h) + delay, g);
    ReduceInside(h, Inverse(h) + delay + g, Inverse(g));
    assert h + (Inverse(h) + delay + g) + Inverse(g) == (h + Inverse(h)) + (delay + (g + Inverse(g)));
    InverseAround(delay, h, g);
  }

  lemma {:induction false} ExtendedApart(a: Letters, b: Letters, h: Letters, g: Letters)
    requires Reduced(a) && Reduced(b) && Nonzero(h) && Nonzero(g) && Extended(a, h, g) == Extended(b, h, g)
    ensures a == b
  {
    ExtendedBack(a, h, g);
    ExtendedBack(b, h, g);
  }

  // ----- positive words -----

  lemma {:induction false} InverseReduced(w: Letters)
    requires Positive(w)
    ensures Reduced(Inverse(w)) && forall i | 0 <= i < |Inverse(w)| :: Inverse(w)[i] < 0
  {
    if w != [] {
      InverseReduced(w[1..]);
    }
  }

  /** Pushing positive letters never cancels once the top is positive. */
  lemma {:induction false} PositiveStays(s: Letters, w: Letters)
    requires Positive(w) && (s != [] ==> s[|s| - 1] > 0)
    ensures Act(s, w) == s + w
  {
    if w == [] {
      assert s + w == s;
    } else {
      PositiveStays(s, w[..|w| - 1]);
      assert s + w[..|w| - 1] + [w[|w| - 1]] == s + w;
    }
  }

  /** Two outputs are equal exactly when their delay is empty. */
  lemma {:induction false} DelayDecides(h: Letters, g: Letters)
    requires Positive(h) && Positive(g)
    ensures Delay(h, g) == [] <==> h == g
  {
    InverseReduced(h);
    ActJoin([], Inverse(h), g);
    ReducedStays(Inverse(h));
    InverseMeets(h, g);
  }

  lemma {:induction false} InverseMeets(h: Letters, g: Letters)
    requires Positive(h) && Positive(g)
    ensures Act(Inverse(h), g) == [] <==> h == g
  {
    if h == [] {
      PositiveStays([], g);
      assert [] + g == g;
    } else if g == [] {
      assert Inverse(h) != [];
    } else {
      assert g == [g[0]] + g[1..] && h == [h[0]] + h[1..];
      ActJoin(Inverse(h), [g[0]], g[1..]);
      ActOne(Inverse(h), g[0]);
      if h[0] == g[0] {
        assert Push(Inverse(h), g[0]) == Inverse(h[1..]);
        InverseMeets(h[1..], g[1..]);
      } else {
        PositiveStays(Inverse(h) + [g[0]], g[1..]);
      }
    }
  }
}

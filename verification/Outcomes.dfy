/** What a deterministic automaton makes of every word. */
module Outcomes {
  import opened Options
  import opened Machine

  /** Some word's reading: undefined, defined without a token, or with the token awarded. */
  datatype Outcome = Undefined | Defined(token: Option<Token>)

  ghost function OutcomeFrom(d: Dfa, q: State, w: Word): Outcome {
    match d.Run(q, w)
    case None => Undefined
    case Some(p) => Defined(if d.Accepting(p) then Some(d.accepts[p]) else None)
  }

  /** Every state is reached by some word. */
  ghost predicate AllReached(d: Dfa) {
    forall q: nat | q < d.states :: d.Reachable(q)
  }

  /** No word tells the states apart, by the token awarded or by being defined at all. */
  ghost predicate SameOutcomes(d: Dfa, p: State, q: State) {
    forall w :: OutcomeFrom(d, p, w) == OutcomeFrom(d, q, w)
  }

  /** The automata make the same of every word. */
  ghost predicate Equivalent(d: Dfa, e: Dfa) {
    forall w :: OutcomeFrom(d, d.init, w) == OutcomeFrom(e, e.init, w)
  }

  /** Reading on from where a word leads. */
  lemma {:induction false} OutcomeAfter(d: Dfa, u: Word, q: State, w: Word)
    requires d.Run(d.init, u) == Some(q)
    ensures OutcomeFrom(d, d.init, u + w) == OutcomeFrom(d, q, w)
  {
    d.RunAppend(d.init, u, w);
  }
}

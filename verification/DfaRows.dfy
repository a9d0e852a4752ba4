/** The rows of a deterministic automaton's table, for its partition. */
module DfaRows {
  import opened Options
  import opened Machine
  import opened Partition
  import B = ByteClasses

  /** The state reached on a byte, the state past the table where there is none. */
  function Target(d: Dfa, q: nat, b: Byte): (to: nat)
    ensures d.Valid() ==> to <= d.states
  {
    match d.Step(q, b) case Some(p) => p case None => d.states
  }

  function RowsOf(d: Dfa): System<Byte> {
    System(d.states, (q: nat, b: Byte) => Target(d, q, b))
  }

  lemma RowsValid(d: Dfa)
    requires d.Valid()
    ensures RowsOf(d).Valid()
  {
  }

  /** The lowest bytes of the classes stand for all. */
  lemma {:induction false} RepresentedRows(d: Dfa, bytes: seq<Byte>)
    requires forall b: Byte :: B.Represented(d, bytes, b)
    ensures forall b: Byte :: Represented(RowsOf(d), bytes, b)
  {
    forall b: Byte ensures Represented(RowsOf(d), bytes, b) {
      assert B.Represented(d, bytes, b);
      var r :| r in bytes && r <= b && B.SameRow(d, r, b);
      assert SameColumn(RowsOf(d), r, b);
    }
  }

  lemma {:induction false} AfterDead(d: Dfa, q: nat, w: Word)
    requires d.Valid() && q >= d.states
    ensures After(RowsOf(d), q, w) >= d.states
  {
    if w != [] {
      AfterDead(d, Target(d, q, w[0]), w[1..]);
    }
  }

  /** The total walk is the partial run, a death landing past the table. */
  lemma {:induction false} AfterIsRun(d: Dfa, q: nat, w: Word)
    requires d.Valid() && q < d.states
    ensures match d.Run(q, w)
            case Some(p) => After(RowsOf(d), q, w) == p
            case None => After(RowsOf(d), q, w) >= d.states
    decreases |w|
  {
    if w != [] {
      d.RunByte(q, w[0]);
      d.RunAppend(q, [w[0]], w[1..]);
      assert [w[0]] + w[1..] == w;
      if d.Step(q, w[0]).Some? {
        AfterIsRun(d, Target(d, q, w[0]), w[1..]);
      } else {
        AfterDead(d, d.states, w[1..]);
      }
    }
  }
}

/** The classes of bytes a transition table does not tell apart. */
module ByteClasses {
  import opened Options
  import opened Machine

  /** Some byte of the list, no higher than b, moves every state as b does. */
  ghost predicate Represented(d: Dfa, bytes: seq<Byte>, b: Byte) {
    exists r :: r in bytes && r <= b && SameRow(d, r, b)
  }

  /** The list holds the lowest byte of each class among the bytes below value, ascending. */
  ghost predicate LowestBelow(d: Dfa, bytes: seq<Byte>, value: int) {
    && (forall r | r in bytes :: r < value)
    && (forall b: Byte | b < value :: Represented(d, bytes, b))
    && (forall i, j | 0 <= i < j < |bytes| :: bytes[i] < bytes[j])
    && (forall i, j | 0 <= i < j < |bytes| :: !SameRow(d, bytes[i], bytes[j]))
  }

  lemma {:induction false} ClassKnown(d: Dfa, bytes: seq<Byte>, b: Byte, r: Byte)
    requires LowestBelow(d, bytes, b) && r in bytes && Row(d, r) == Row(d, b)
    ensures LowestBelow(d, bytes, b + 1)
  {
    RowDecides(d, r, b);
    assert Represented(d, bytes, b);
  }

  lemma {:induction false} ClassNew(d: Dfa, bytes: seq<Byte>, b: Byte)
    requires LowestBelow(d, bytes, b) && forall r | r in bytes :: Row(d, r) != Row(d, b)
    ensures LowestBelow(d, bytes + [b], b + 1)
  {
    var more := bytes + [b];
    forall c: Byte | c < b + 1 ensures Represented(d, more, c) {
      if c < b {
        assert Represented(d, bytes, c);
        var r :| r in bytes && r <= c && SameRow(d, r, c);
        assert r in more;
      } else {
        assert b in more && SameRow(d, b, b);
      }
    }
    forall i, j | 0 <= i < j < |more| ensures more[i] < more[j] && !SameRow(d, more[i], more[j]) {
      if j == |bytes| {
        assert bytes[i] in bytes;
        RowDecides(d, bytes[i], b);
      }
    }
  }

  /** The lowest byte of each class of bytes the table does not tell apart, ascending. */
  method Representatives(d: Dfa) returns (bytes: seq<Byte>)
    ensures forall b: Byte :: Represented(d, bytes, b)
    ensures forall i, j | 0 <= i < j < |bytes| :: bytes[i] < bytes[j] && !SameRow(d, bytes[i], bytes[j])
  {
    bytes := [];
    for value: int := 0 to 256
      invariant LowestBelow(d, bytes, value)
    {
      hide LowestBelow;
      if r :| r in bytes && Row(d, r) == Row(d, value) {
        ClassKnown(d, bytes, value, r);
      } else {
        ClassNew(d, bytes, value);
        bytes := bytes + [value];
      }
    }
  }

  /** Every state moves alike on both bytes. */
  ghost predicate SameRow(d: Dfa, a: Byte, b: Byte) {
    forall q :: d.Step(q, a) == d.Step(q, b)
  }

  /** The transitions a byte labels. */
  function Row(d: Dfa, b: Byte): map<State, State> {
    map q | q in (set k | k in d.delta && k.1 == b :: k.0) :: d.delta[(q, b)]
  }

  lemma {:induction false} RowDecides(d: Dfa, a: Byte, b: Byte)
    ensures Row(d, a) == Row(d, b) <==> SameRow(d, a, b)
  {
    forall q, c: Byte ensures d.Step(q, c) == if q in Row(d, c) then Some(Row(d, c)[q]) else None {
      if (q, c) in d.delta {
        assert (q, c).0 in Row(d, c);
      }
    }
    if SameRow(d, a, b) {
      forall q: State ensures q in Row(d, a) <==> q in Row(d, b) {
        assert d.Step(q, a) == d.Step(q, b);
      }
      forall q | q in Row(d, a) ensures Row(d, a)[q] == Row(d, b)[q] {
        assert d.Step(q, a) == d.Step(q, b);
      }
    }
  }
}

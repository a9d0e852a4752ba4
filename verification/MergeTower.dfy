/** The merge tower: the merges of a table as stages of one-symbol transducers over claimed bytes. */
module MergeTower {
  import opened Options
  import opened Machine
  import opened MergeTable
  import opened MergePasses
  import opened TokenRuns
  import opened ClaimedPasses
  import opened Verifiers
  import Counting

  /** The output side: nothing came out yet, more must come, or nothing more may come. */
  datatype Tail = Empty | Open | Closed

  /** What the top stage has emitted, and the left part each stage holds, with its claim, if any. */
  datatype Configuration = Configuration(tail: Tail, stages: seq<Option<Claimed>>)

  /** Every stage holds its own merge's left part or nothing. */
  ghost predicate WellHeld(table: seq<Merge>, c: Configuration) {
    && |c.stages| == |table|
    && forall l | 0 <= l < |table| :: HoldsLeft(table, c, l)
  }

  ghost predicate HoldsLeft(table: seq<Merge>, c: Configuration, l: nat)
    requires l < |table| && l < |c.stages|
  {
    c.stages[l].Some? ==> c.stages[l].value.token == table[l].left
  }

  // ----- what a configuration means for the symbols still to come -----

  /** The tokens yet to be emitted end a completed encoding after what has been emitted. */
  ghost predicate TailTakes(tail: Tail, s: seq<Claimed>) {
    Final(s) && (tail == Open ==> s != []) && (tail == Closed ==> s == [])
  }

  ghost function Held(c: Configuration, l: nat): seq<Claimed>
    requires l < |c.stages|
  {
    if c.stages[l].Some? then [c.stages[l].value] else []
  }

  /**
    Whether the configuration accepts once the symbols still to come have arrived at a stage and all
    has been passed upward.
   */
  ghost predicate Takes(table: seq<Merge>, c: Configuration, l: nat, s: seq<Claimed>)
    requires l <= |table| == |c.stages|
    decreases |table| - l
  {
    if l == |table| then TailTakes(c.tail, s)
    else
      var out := Joins(table[l], ProductOf(l), Held(c, l) + s);
      out.Some? && Takes(table, c, l + 1, out.value)
  }

  // ----- delivering a symbol -----

  /** The stage's held symbol taken off. */
  function Released(c: Configuration, l: nat): Configuration
    requires l < |c.stages|
  {
    c.(stages := c.stages[l := None])
  }

  /** The configuration after a symbol is delivered to a stage, unless that is refused. */
  ghost function Delivered(table: seq<Merge>, c: Configuration, l: nat, sym: Claimed): (r: Option<Configuration>)
    requires l <= |table| == |c.stages|
    ensures r.Some? ==> |r.value.stages| == |table| && r.value.stages[..l] == c.stages[..l]
    decreases |table| - l
  {
    if l == |table| then
      if c.tail == Closed then None else Some(c.(tail := if sym.claim then Open else Closed))
    else if c.stages[l].Some? && sym.token == table[l].right then
      if c.stages[l].value.claim then None else Delivered(table, Released(c, l), l + 1,
        Claimed(ProductOf(l), sym.claim))
    else
      var passed := if c.stages[l].Some? then Delivered(table, Released(c, l), l + 1, c.stages[l].value) else Some(c);
      match passed
      case None => None
      case Some(next) =>
        assert next.stages[..l] == next.stages[..l + 1][..l] && c.stages[..l] == Released(c, l).stages[..l + 1][..l];
        if sym.token == table[l].left then Some(next.(stages := next.stages[l := Some(sym)]))
        else Delivered(table, next, l + 1, sym)
  }

  /** The stage's symbol delivered to the stage above. */
  ghost function PassedUp(table: seq<Merge>, c: Configuration, l: nat): Option<Configuration>
    requires l < |table| == |c.stages| && c.stages[l].Some?
  {
    Delivered(table, Released(c, l), l + 1, c.stages[l].value)
  }

  /** A configuration that takes what another takes with a symbol in front; none where the other takes nothing so. */
  ghost predicate TakesNext(table: seq<Merge>, r: Option<Configuration>, c: Configuration, l: nat, sym: Claimed)
    requires l <= |table| == |c.stages| && (r.Some? ==> |r.value.stages| == |table|)
  {
    forall f: seq<Claimed> :: TakesOne(table, r, c, l, sym, f)
  }

  ghost predicate TakesOne(
      table: seq<Merge>, r: Option<Configuration>, c: Configuration, l: nat, sym: Claimed, f: seq<Claimed>)
    requires l <= |table| == |c.stages| && (r.Some? ==> |r.value.stages| == |table|)
  {
    Takes(table, c, l, [sym] + f) <==> r.Some? && Takes(table, r.value, l, f)
  }

  /** Stages at and above a level are all that decides what the level takes. */
  lemma {:induction false} TakesAbove(table: seq<Merge>, c: Configuration, d: Configuration, l: nat, s: seq<Claimed>)
    requires l <= |table| == |c.stages| == |d.stages| && c.tail == d.tail && c.stages[l..] == d.stages[l..]
    ensures Takes(table, c, l, s) <==> Takes(table, d, l, s)
    decreases |table| - l
  {
    hide Joins;
    if l < |table| {
      assert c.stages[l] == c.stages[l..][0] == d.stages[l..][0] == d.stages[l];
      assert c.stages[l + 1..] == c.stages[l..][1..] == d.stages[l..][1..] == d.stages[l + 1..];
      var out := Joins(table[l], ProductOf(l), Held(c, l) + s);
      if out.Some? {
        TakesAbove(table, c, d, l + 1, out.value);
      }
    }
  }

  lemma {:induction false} EmitTakes(table: seq<Merge>, c: Configuration, sym: Claimed, f: seq<Claimed>)
    requires |c.stages| == |table|
    ensures TakesOne(table, Delivered(table, c, |table|, sym), c, |table|, sym, f)
  {
    var s := [sym] + f;
    if Final(s) {
      assert sym == s[0] && |f| == |s| - 1;
      forall i | 0 <= i < |f| ensures f[i].claim <==> i < |f| - 1 {
        assert f[i] == s[i + 1];
      }
    }
    if Final(f) && (sym.claim <==> f != []) {
      forall i | 0 <= i < |s| ensures s[i].claim <==> i < |s| - 1 {
        assert i > 0 ==> s[i] == f[i - 1];
      }
    }
  }

  /** A stage holding its left part joins an arriving right part. */
  lemma {:induction false} JoinTakes(table: seq<Merge>, c: Configuration, l: nat, sym: Claimed, f: seq<Claimed>)
    requires l < |table| == |c.stages| && HoldsLeft(table, c, l) && c.stages[l].Some? && sym.token == table[l].right
    requires !c.stages[l].value.claim ==>
               TakesNext(table, Delivered(table, Released(c, l), l + 1, Claimed(ProductOf(l), sym.claim)),
                         Released(c, l), l + 1, Claimed(ProductOf(l), sym.claim))
    ensures TakesOne(table, Delivered(table, c, l, sym), c, l, sym, f)
  {
    var m, p, h := table[l], ProductOf(l), c.stages[l].value;
    var s := [h] + ([sym] + f);
    assert s[2..] == f && s[0] == h && s[1] == sym;
    if !h.claim {
      var joined := Claimed(p, sym.claim);
      var r := Delivered(table, Released(c, l), l + 1, joined);
      JoinedTakes(table, c, r, l, joined, f);
    }
  }

  /** What flows on above an emptied stage after its product. */
  lemma {:induction false} JoinedTakes(
      table: seq<Merge>, c: Configuration, r: Option<Configuration>, l: nat, joined: Claimed, f: seq<Claimed>)
    requires l < |table| == |c.stages|
    requires (r.Some? ==> |r.value.stages| == |table| && r.value.stages[..l + 1] == Released(c, l).stages[..l + 1])
    requires TakesNext(table, r, Released(c, l), l + 1, joined)
    ensures (var out := Joins(table[l], ProductOf(l), f); out.Some? && Takes(table, c, l + 1, [joined] + out.value))
            <==> r.Some? && Takes(table, r.value, l, f)
  {
    hide Joins;
    var out := Joins(table[l], ProductOf(l), f);
    if r.Some? {
      assert r.value.stages[l] == r.value.stages[..l + 1][l] == None;
      assert [] + f == f;
    }
    if out.Some? {
      TakesAbove(table, c, Released(c, l), l + 1, [joined] + out.value);
      assert TakesOne(table, r, Released(c, l), l + 1, joined, out.value);
    }
  }

  /** A held left part that the arriving symbol does not complete goes on in front of it. */
  lemma {:induction false} PassTakes(table: seq<Merge>, c: Configuration, l: nat, f: seq<Claimed>)
    requires l < |table| == |c.stages| && HoldsLeft(table, c, l) && c.stages[l].Some?
    requires f == [] || f[0].token != table[l].right
    requires TakesNext(table, PassedUp(table, c, l), Released(c, l), l + 1, c.stages[l].value)
    ensures Takes(table, c, l, f) <==> PassedUp(table, c, l).Some? && Takes(table, PassedUp(table, c, l).value, l, f)
  {
    var h := c.stages[l].value;
    var s := [h] + f;
    assert s[1..] == f && s[0] == h && (f != [] ==> s[1] == f[0]);
    JoinedTakes(table, c, PassedUp(table, c, l), l, h, f);
  }

  /** A stage holding nothing holds its left part when it arrives. */
  lemma {:induction false} HoldTakes(table: seq<Merge>, c: Configuration, l: nat, sym: Claimed, f: seq<Claimed>)
    requires l < |table| == |c.stages| && c.stages[l].None?
    ensures Takes(table, c.(stages := c.stages[l := Some(sym)]), l, f) <==> Takes(table, c, l, [sym] + f)
  {
    hide Joins;
    var d := c.(stages := c.stages[l := Some(sym)]);
    assert [] + ([sym] + f) == [sym] + f;
    var out := Joins(table[l], ProductOf(l), [sym] + f);
    if out.Some? {
      TakesAbove(table, c, d, l + 1, out.value);
    }
  }

  /** Any other symbol passes an empty stage. */
  lemma {:induction false} ThroughTakes(table: seq<Merge>, c: Configuration, l: nat, sym: Claimed, f: seq<Claimed>)
    requires l < |table| == |c.stages| && c.stages[l].None? && sym.token != table[l].left
    requires TakesNext(table, Delivered(table, c, l + 1, sym), c, l + 1, sym)
    ensures var r := Delivered(table, c, l + 1, sym);
            Takes(table, c, l, [sym] + f) <==> r.Some? && Takes(table, r.value, l, f)
  {
    var r, s := Delivered(table, c, l + 1, sym), [] + ([sym] + f);
    assert s[1..] == f && s[0] == sym;
    assert Released(c, l) == c;
    JoinedTakes(table, c, r, l, sym, f);
  }

  lemma {:induction false} WellReleased(table: seq<Merge>, c: Configuration, l: nat)
    requires WellHeld(table, c) && l < |table|
    ensures WellHeld(table, Released(c, l))
  {
    forall k | 0 <= k < |table| ensures HoldsLeft(table, Released(c, l), k) {
      assert HoldsLeft(table, c, k);
    }
  }

  lemma {:induction false} DeliveredWell(table: seq<Merge>, c: Configuration, l: nat, sym: Claimed)
    requires WellHeld(table, c) && l <= |table|
    ensures Delivered(table, c, l, sym).Some? ==> WellHeld(table, Delivered(table, c, l, sym).value)
    decreases |table| - l
  {
    if l == |table| {
      if c.tail != Closed {
        WellRetailed(table, c, if sym.claim then Open else Closed);
      }
    } else {
      WellReleased(table, c, l);
      assert HoldsLeft(table, c, l);
      hide WellHeld;
      if c.stages[l].Some? && sym.token == table[l].right {
        DeliveredWell(table, Released(c, l), l + 1, Claimed(ProductOf(l), sym.claim));
      } else {
        if c.stages[l].Some? {
          DeliveredWell(table, Released(c, l), l + 1, c.stages[l].value);
        }
        var passed := if c.stages[l].Some? then PassedUp(table, c, l) else Some(c);
        if passed.Some? {
          if sym.token == table[l].left {
            WellHolding(table, passed.value, l, sym);
          } else {
            DeliveredWell(table, passed.value, l + 1, sym);
          }
        }
      }
    }
  }

  lemma {:induction false} WellRetailed(table: seq<Merge>, c: Configuration, tail: Tail)
    requires WellHeld(table, c)
    ensures WellHeld(table, c.(tail := tail))
  {
    forall k | 0 <= k < |table| ensures HoldsLeft(table, c.(tail := tail), k) {
      assert HoldsLeft(table, c, k);
    }
  }

  lemma {:induction false} WellHolding(table: seq<Merge>, c: Configuration, l: nat, sym: Claimed)
    requires WellHeld(table, c) && l < |table| && sym.token == table[l].left
    ensures WellHeld(table, c.(stages := c.stages[l := Some(sym)]))
  {
    var d := c.(stages := c.stages[l := Some(sym)]);
    forall k | 0 <= k < |table| ensures HoldsLeft(table, d, k) {
      assert HoldsLeft(table, c, k);
    }
  }

  /** A delivery takes what the configuration takes with the symbol in front, and is refused where that is nothing. */
  lemma {:induction false} DeliveredTakes(table: seq<Merge>, c: Configuration, l: nat, sym: Claimed)
    requires WellHeld(table, c) && l <= |table|
    ensures TakesNext(table, Delivered(table, c, l, sym), c, l, sym)
    decreases |table| - l, 2
  {
    if l == |table| {
      forall f: seq<Claimed> ensures TakesOne(table, Delivered(table, c, l, sym), c, l, sym, f) {
        EmitTakes(table, c, sym, f);
      }
    } else if c.stages[l].Some? && sym.token == table[l].right {
      WellReleased(table, c, l);
      DeliveredTakes(table, Released(c, l), l + 1, Claimed(ProductOf(l), sym.claim));
      assert HoldsLeft(table, c, l);
      hide WellHeld;
      forall f: seq<Claimed> ensures TakesOne(table, Delivered(table, c, l, sym), c, l, sym, f) {
        JoinTakes(table, c, l, sym, f);
      }
    } else {
      DeliveredPast(table, c, l, sym);
    }
  }

  /** The same where the held symbol, if any, is passed upward first. */
  lemma {:induction false} DeliveredPast(table: seq<Merge>, c: Configuration, l: nat, sym: Claimed)
    requires WellHeld(table, c) && l < |table| && !(c.stages[l].Some? && sym.token == table[l].right)
    ensures TakesNext(table, Delivered(table, c, l, sym), c, l, sym)
    decreases |table| - l, 1
  {
    if c.stages[l].None? {
      DeliveredFree(table, c, l, sym);
    } else {
      WellReleased(table, c, l);
      DeliveredTakes(table, Released(c, l), l + 1, c.stages[l].value);
      DeliveredWell(table, Released(c, l), l + 1, c.stages[l].value);
      assert HoldsLeft(table, c, l);
      var passed := PassedUp(table, c, l);
      if passed.Some? {
        assert passed.value.stages[l] == passed.value.stages[..l + 1][l] == None;
        DeliveredFree(table, passed.value, l, sym);
      }
      hide WellHeld;
      forall f: seq<Claimed> ensures TakesOne(table, Delivered(table, c, l, sym), c, l, sym, f) {
        PassTakes(table, c, l, [sym] + f);
        if passed.Some? {
          assert TakesOne(table, Delivered(table, passed.value, l, sym), passed.value, l, sym, f);
        }
      }
    }
  }

  lemma {:induction false} DeliveredFree(table: seq<Merge>, c: Configuration, l: nat, sym: Claimed)
    requires WellHeld(table, c) && l < |table| && c.stages[l].None?
    ensures TakesNext(table, Delivered(table, c, l, sym), c, l, sym)
    decreases |table| - l, 0
  {
    if sym.token == table[l].left {
      forall f: seq<Claimed> ensures TakesOne(table, Delivered(table, c, l, sym), c, l, sym, f) {
        HoldTakes(table, c, l, sym, f);
      }
    } else {
      DeliveredTakes(table, c, l + 1, sym);
      forall f: seq<Claimed> ensures TakesOne(table, Delivered(table, c, l, sym), c, l, sym, f) {
        ThroughTakes(table, c, l, sym, f);
      }
    }
  }

  /** Hands a claimed token to a stage; what the stage lets go is handed on to the next. */
  method Deliver(table: seq<Merge>, from: Configuration, level: nat, symbol: Claimed)
    returns (to: Option<Configuration>)
    requires level <= |table| == |from.stages|
    ensures to == Delivered(table, from, level, symbol)
    decreases |table| - level
  {
    var c, l, sym := from, level, symbol;
    while l < |table|
      invariant level <= l <= |table| == |c.stages|
      invariant Delivered(table, c, l, sym) == Delivered(table, from, level, symbol)
    {
      var stage := c.stages[l];
      if stage.Some? && sym.token == table[l].right {
        if stage.value.claim {
          return None;
        }
        c, sym := Released(c, l), Claimed(ProductOf(l), sym.claim);
      } else {
        if stage.Some? {
          var passed := Deliver(table, Released(c, l), l + 1, stage.value);
          if passed.None? {
            return None;
          }
          c := passed.value;
        }
        if sym.token == table[l].left {
          return Some(c.(stages := c.stages[l := Some(sym)]));
        }
      }
      l := l + 1;
    }
    if c.tail == Closed {
      return None;
    }
    to := Some(c.(tail := if sym.claim then Open else Closed));
  }

  /** Empties a stage into the next one up. */
  method PassUpward(table: seq<Merge>, c: Configuration, level: nat) returns (to: Option<Configuration>)
    requires level < |table| == |c.stages| && c.stages[level].Some?
    ensures to == PassedUp(table, c, level)
  {
    to := Deliver(table, Released(c, level), level + 1, c.stages[level].value);
  }

  // ----- how much a configuration holds -----

  /** The levels the held symbols have yet to climb. */
  ghost function Weight(c: Configuration, l: nat): nat
    requires l <= |c.stages|
    decreases |c.stages| - l
  {
    if l == |c.stages| then 0
    else (if c.stages[l].Some? then |c.stages| - l else 0) + Weight(c, l + 1)
  }

  lemma {:induction false} WeightAbove(c: Configuration, d: Configuration, l: nat)
    requires l <= |c.stages| == |d.stages| && c.stages[l..] == d.stages[l..]
    ensures Weight(c, l) == Weight(d, l)
    decreases |c.stages| - l
  {
    if l < |c.stages| {
      assert c.stages[l] == c.stages[l..][0] == d.stages[l..][0] == d.stages[l];
      assert c.stages[l + 1..] == c.stages[l..][1..] == d.stages[l..][1..] == d.stages[l + 1..];
      WeightAbove(c, d, l + 1);
    }
  }

  lemma {:induction false} WeightBelow(c: Configuration, d: Configuration, k: nat, l: nat)
    requires k <= l <= |c.stages| == |d.stages| && c.stages[..l] == d.stages[..l] && Weight(c, l) <= Weight(d, l)
    ensures Weight(c, k) <= Weight(d, k)
    ensures Weight(c, l) < Weight(d, l) ==> Weight(c, k) < Weight(d, k)
    decreases l - k
  {
    if k < l {
      assert c.stages[k] == c.stages[..l][k] == d.stages[..l][k] == d.stages[k];
      WeightBelow(c, d, k + 1, l);
    }
  }

  /** A delivery adds no more than the climb of the symbol delivered. */
  lemma {:induction false} DeliveredWeight(table: seq<Merge>, c: Configuration, l: nat, sym: Claimed)
    requires l <= |table| == |c.stages|
    ensures Delivered(table, c, l, sym).Some? ==>
              Weight(Delivered(table, c, l, sym).value, l) <= Weight(c, l) + |table| - l
    decreases |table| - l, 1
  {
    var r := Delivered(table, c, l, sym);
    if l < |table| && r.Some? {
      WeightAbove(c, Released(c, l), l + 1);
      if c.stages[l].Some? && sym.token == table[l].right {
        DeliveredWeight(table, Released(c, l), l + 1, Claimed(ProductOf(l), sym.claim));
        assert r.value.stages[l] == r.value.stages[..l + 1][l] == None;
      } else if c.stages[l].Some? {
        DeliveredWeight(table, Released(c, l), l + 1, c.stages[l].value);
        var next := PassedUp(table, c, l).value;
        assert next.stages[l] == next.stages[..l + 1][l] == None;
        ReadWeight(table, next, l, sym, r.value);
      } else {
        ReadWeight(table, c, l, sym, r.value);
      }
    }
  }

  /** A free stage holds the symbol or lets it by. */
  lemma {:induction false} ReadWeight(table: seq<Merge>, next: Configuration, l: nat, sym: Claimed, r: Configuration)
    requires l < |table| == |next.stages| && next.stages[l].None?
    requires if sym.token == table[l].left then r == next.(stages := next.stages[l := Some(sym)])
      else Delivered(table, next, l + 1, sym) == Some(r)
    ensures Weight(r, l) <= Weight(next, l + 1) + |table| - l
    decreases |table| - l, 0
  {
    if sym.token == table[l].left {
      WeightAbove(next, r, l + 1);
    } else {
      DeliveredWeight(table, next, l + 1, sym);
      assert r.stages[l] == r.stages[..l + 1][l] == next.stages[l];
    }
  }

  /** Passing a held symbol upward leaves less to climb. */
  lemma {:induction false} PassedLighter(table: seq<Merge>, c: Configuration, l: nat)
    requires l < |table| == |c.stages| && c.stages[l].Some?
    ensures PassedUp(table, c, l).Some? ==> Weight(PassedUp(table, c, l).value, 0) < Weight(c, 0)
  {
    var r := PassedUp(table, c, l);
    if r.Some? {
      WeightAbove(c, Released(c, l), l + 1);
      DeliveredWeight(table, Released(c, l), l + 1, c.stages[l].value);
      assert r.value.stages[l] == r.value.stages[..l + 1][l] == None;
      assert r.value.stages[..l] == r.value.stages[..l + 1][..l] == c.stages[..l];
      WeightBelow(r.value, c, 0, l);
    }
  }

  // ----- early flushing -----

  /** The tokens that can arrive at a level next from the nearest holding stage below it. */
  ghost function Arriving(table: seq<Merge>, low: nat, level: nat): set<Token>
    requires low < level <= |table|
    decreases level
  {
    if level == low + 1 then {table[low].left, ProductOf(low)}
    else
      var before := Arriving(table, low, level - 1);
      before + if table[level - 1].left in before then {ProductOf(level - 1)} else {}
  }

  method Arrivals(table: seq<Merge>, low: nat, level: nat) returns (possible: seq<Token>)
    requires low < level <= |table|
    ensures forall t :: t in possible <==> t in Arriving(table, low, level)
  {
    possible := [table[low].left, ProductOf(low)];
    for between := low + 1 to level
      invariant forall t :: t in possible <==> t in Arriving(table, low, between)
    {
      if table[between].left in possible {
        possible := possible + [ProductOf(between)];
      }
    }
  }

  /** A pass over a nonempty sequence leaves one beginning with its first token or the product that token begins. */
  lemma JoinsFirst(m: Merge, p: Token, s: seq<Claimed>)
    requires s != [] && Joins(m, p, s).Some?
    ensures var out := Joins(m, p, s).value;
            out != [] && (out[0].token == s[0].token || (s[0].token == m.left && out[0].token == p))
  {
  }

  /** Between the holding stage below and the level, all stages empty, the first arrival is a possible one. */
  lemma {:induction false} FlushTakes(
      table: seq<Merge>, c: Configuration, d: Configuration, low: nat, level: nat, l: nat, s: seq<Claimed>)
    requires |c.stages| == |table| == |d.stages| && low < l <= level < |table|
    requires forall k | low < k < level :: c.stages[k].None?
    requires c.stages[..level] == d.stages[..level]
    requires forall f: seq<Claimed> | f != [] && f[0].token in Arriving(table, low, level) ::
               SameTakes(table, c, d, level, f)
    requires s != [] && s[0].token in Arriving(table, low, l)
    ensures SameTakes(table, c, d, l, s)
    decreases level - l
  {
    hide Joins;
    if l < level {
      assert c.stages[l] == c.stages[..level][l] == d.stages[..level][l] == d.stages[l];
      assert [] + s == s;
      var out := Joins(table[l], ProductOf(l), s);
      if out.Some? {
        JoinsFirst(table[l], ProductOf(l), s);
        FlushTakes(table, c, d, low, level, l + 1, out.value);
      }
    }
  }

  ghost predicate SameTakes(table: seq<Merge>, c: Configuration, d: Configuration, l: nat, s: seq<Claimed>)
    requires l <= |table| == |c.stages| == |d.stages|
  {
    Takes(table, c, l, s) <==> Takes(table, d, l, s)
  }

  /** What differs at a level only for impossible arrivals does not differ below. */
  lemma {:induction false} FlushBelow(
      table: seq<Merge>, c: Configuration, d: Configuration, low: nat, level: nat, l: nat, s: seq<Claimed>)
    requires |c.stages| == |table| == |d.stages| && l <= low < level < |table|
    requires HoldsLeft(table, c, low) && c.stages[low].Some? && forall k | low < k < level :: c.stages[k].None?
    requires c.stages[..level] == d.stages[..level]
    requires forall f: seq<Claimed> | f != [] && f[0].token in Arriving(table, low, level) ::
               SameTakes(table, c, d, level, f)
    ensures SameTakes(table, c, d, l, s)
    decreases low - l
  {
    hide Joins;
    assert c.stages[l] == c.stages[..level][l] == d.stages[..level][l] == d.stages[l];
    var arrived := Held(c, l) + s;
    var out := Joins(table[l], ProductOf(l), arrived);
    if out.Some? {
      if l < low {
        FlushBelow(table, c, d, low, level, l + 1, out.value);
      } else {
        JoinsFirst(table[l], ProductOf(l), arrived);
        FlushTakes(table, c, d, low, level, l + 1, out.value);
      }
    }
  }

  /** What a flush at a level takes where the right part does not arrive next. */
  ghost predicate Flushes(table: seq<Merge>, c: Configuration, to: Option<Configuration>)
    requires |c.stages| == |table|
  {
    && (to.Some? ==> WellHeld(table, to.value))
    && forall s: seq<Claimed> :: FlushesOn(table, c, to, s)
  }

  ghost predicate FlushesOn(table: seq<Merge>, c: Configuration, to: Option<Configuration>, s: seq<Claimed>)
    requires |c.stages| == |table| && (to.Some? ==> |to.value.stages| == |table|)
  {
    Takes(table, c, 0, s) <==> to.Some? && Takes(table, to.value, 0, s)
  }

  /** The stage and the nearest holding stage below it, whose next arrivals do not complete what the stage holds. */
  ghost predicate Flushing(table: seq<Merge>, c: Configuration, low: nat, level: nat) {
    && |c.stages| == |table| && low < level < |table| && c.stages[low].Some? && c.stages[level].Some?
    && (forall k | low < k < level :: c.stages[k].None?)
    && table[level].right !in Arriving(table, low, level)
  }

  /** Passing upward a held symbol that no possible next arrival completes changes nothing for any input to come. */
  lemma {:induction false} EarlyFlush(table: seq<Merge>, c: Configuration, low: nat, level: nat)
    requires WellHeld(table, c) && Flushing(table, c, low, level)
    ensures Flushes(table, c, PassedUp(table, c, level))
  {
    var to := PassedUp(table, c, level);
    WellReleased(table, c, level);
    DeliveredTakes(table, Released(c, level), level + 1, c.stages[level].value);
    DeliveredWell(table, Released(c, level), level + 1, c.stages[level].value);
    assert HoldsLeft(table, c, level) && HoldsLeft(table, c, low);
    hide WellHeld, Takes;
    if to.Some? {
      assert to.value.stages[..level] == to.value.stages[..level + 1][..level] == c.stages[..level];
      forall f: seq<Claimed> | f != [] && f[0].token in Arriving(table, low, level)
        ensures SameTakes(table, c, to.value, level, f)
      {
        PassTakes(table, c, level, f);
      }
      forall s: seq<Claimed> ensures FlushesOn(table, c, to, s) {
        FlushBelow(table, c, to.value, low, level, 0, s);
      }
    } else {
      forall f: seq<Claimed> | f != [] && f[0].token in Arriving(table, low, level)
        ensures !Takes(table, c, level, f)
      {
        PassTakes(table, c, level, f);
      }
      forall s: seq<Claimed> ensures FlushesOn(table, c, to, s) {
        RefusedBelow(table, c, low, level, 0, s);
      }
    }
  }

  /** What no possible arrival at a level is taken with is taken with nothing below. */
  lemma {:induction false} RefusedBelow(
      table: seq<Merge>, c: Configuration, low: nat, level: nat, l: nat, s: seq<Claimed>)
    requires |c.stages| == |table| && l <= level && low < level < |table|
    requires HoldsLeft(table, c, low) && c.stages[low].Some? && forall k | low < k < level :: c.stages[k].None?
    requires forall f: seq<Claimed> | f != [] && f[0].token in Arriving(table, low, level) :: !Takes(table, c, level, f)
    requires l > low ==> s != [] && s[0].token in Arriving(table, low, l)
    ensures !Takes(table, c, l, s)
    decreases level - l
  {
    hide Joins;
    if l < level {
      var arrived := Held(c, l) + s;
      var out := Joins(table[l], ProductOf(l), arrived);
      if out.Some? {
        if l >= low {
          JoinsFirst(table[l], ProductOf(l), arrived);
        }
        RefusedBelow(table, c, low, level, l + 1, out.value);
      }
    }
  }

  lemma {:induction false} FlushesTwice(
      table: seq<Merge>, c: Configuration, d: Configuration, to: Option<Configuration>)
    requires |c.stages| == |table| == |d.stages| && Flushes(table, c, Some(d)) && Flushes(table, d, to)
    ensures Flushes(table, c, to)
  {
    assert to.Some? ==> |to.value.stages| == |table|;
    hide Takes, WellHeld;
    forall s: seq<Claimed> ensures FlushesOn(table, c, to, s) {
      assert FlushesOn(table, c, Some(d), s) && FlushesOn(table, d, to, s);
    }
  }

  /**
    The first stage, counting up, whose held symbol no possible next arrival completes, with the
    holding stage below it.
   */
  method Flushable(table: seq<Merge>, c: Configuration) returns (level: Option<nat>, ghost low: nat)
    requires |c.stages| == |table|
    ensures level.Some? ==> Flushing(table, c, low, level.value)
    ensures level.None? ==> forall below, at :: !Flushing(table, c, below, at)
  {
    var below: Option<nat> := None;
    low := 0;
    for at := 0 to |table|
      invariant below.Some? ==> below.value < at && c.stages[below.value].Some?
      invariant below.Some? ==> forall k | below.value < k < at :: c.stages[k].None?
      invariant below.None? ==> forall k | 0 <= k < at :: c.stages[k].None?
      invariant forall under: nat, level: nat | level < at :: !Flushing(table, c, under, level)
    {
      if c.stages[at].Some? {
        if below.Some? {
          var possible := Arrivals(table, below.value, at);
          if table[at].right !in possible {
            return Some(at), below.value;
          }
        }
        below := Some(at);
      }
    }
    level := None;
  }

  /** Empties, lowest first and repeatedly, each stage that can no longer see its merge completed. */
  method Normalize(table: seq<Merge>, from: Configuration) returns (to: Option<Configuration>)
    requires WellHeld(table, from)
    ensures Flushes(table, from, to)
    ensures to.Some? ==> forall low, level :: !Flushing(table, to.value, low, level)
  {
    var c := from;
    var level, low := Flushable(table, c);
    while level.Some?
      invariant WellHeld(table, c) && Flushes(table, from, Some(c))
      invariant level.Some? ==> 0 <= low && 0 <= level.value && Flushing(table, c, low, level.value)
      invariant level.None? ==> forall low, at :: !Flushing(table, c, low, at)
      decreases Weight(c, 0)
    {
      EarlyFlush(table, c, low, level.value);
      PassedLighter(table, c, level.value);
      var passed := PassUpward(table, c, level.value);
      FlushesTwice(table, from, c, passed);
      if passed.None? {
        return None;
      }
      c := passed.value;
      level, low := Flushable(table, c);
    }
    to := Some(c);
  }

  // ----- acceptance and steps -----

  /** Emptying the stages in order decides acceptance just as the end of input does. */
  lemma {:induction false} PassedEnds(table: seq<Merge>, c: Configuration, l: nat)
    requires WellHeld(table, c) && l < |table|
    ensures c.stages[l].Some? ==>
              && (PassedUp(table, c, l).Some? ==> WellHeld(table, PassedUp(table, c, l).value))
              && (Takes(table, c, l, []) <==>
                PassedUp(table, c, l).Some? && Takes(table, PassedUp(table, c, l).value, l + 1, []))
    ensures c.stages[l].None? ==> (Takes(table, c, l, []) <==> Takes(table, c, l + 1, []))
  {
    assert Joins(table[l], ProductOf(l), []) == Some([]);
    if c.stages[l].Some? {
      WellReleased(table, c, l);
      DeliveredTakes(table, Released(c, l), l + 1, c.stages[l].value);
      DeliveredWell(table, Released(c, l), l + 1, c.stages[l].value);
      assert HoldsLeft(table, c, l);
      PassTakes(table, c, l, []);
      hide Joins, WellHeld;
      var to := PassedUp(table, c, l);
      if to.Some? {
        assert to.value.stages[l] == to.value.stages[..l + 1][l] == None;
        assert Held(to.value, l) + [] == [];
      }
    }
  }

  /**
    Whether the input may end in the configuration: nothing is refused on the way up, and no
    boundary is claimed after the last token.
   */
  method IsAccepting(table: seq<Merge>, from: Configuration) returns (accepting: bool)
    requires WellHeld(table, from)
    ensures accepting <==> Takes(table, from, 0, [])
  {
    var c := from;
    for level := 0 to |table|
      invariant WellHeld(table, c)
      invariant Takes(table, c, level, []) <==> Takes(table, from, 0, [])
    {
      PassedEnds(table, c, level);
      if c.stages[level].Some? {
        var passed := PassUpward(table, c, level);
        if passed.None? {
          return false;
        }
        c := passed.value;
      }
    }
    accepting := c.tail != Open;
  }

  /** A closed output lets nothing more through. */
  lemma {:induction false} ClosedRefuses(table: seq<Merge>, c: Configuration, l: nat, s: seq<Claimed>)
    requires l <= |table| == |c.stages| && c.tail == Closed && s != []
    ensures !Takes(table, c, l, s)
    decreases |table| - l
  {
    hide Joins;
    if l < |table| {
      var arrived := Held(c, l) + s;
      var out := Joins(table[l], ProductOf(l), arrived);
      if out.Some? {
        JoinsFirst(table[l], ProductOf(l), arrived);
        ClosedRefuses(table, c, l + 1, out.value);
      }
    }
  }

  /** The step takes what the configuration takes with the symbol in front. */
  ghost predicate Steps(table: seq<Merge>, c: Configuration, sym: Claimed, to: Option<Configuration>)
    requires |c.stages| == |table|
  {
    && (to.Some? ==> WellHeld(table, to.value))
    && TakesNext(table, to, c, 0, sym)
  }

  lemma {:induction false} NormalizedSteps(
      table: seq<Merge>, c: Configuration, sym: Claimed, d: Configuration, to: Option<Configuration>)
    requires |c.stages| == |table| == |d.stages| && Steps(table, c, sym, Some(d)) && Flushes(table, d, to)
    ensures Steps(table, c, sym, to)
  {
    assert to.Some? ==> |to.value.stages| == |table|;
    hide Takes, WellHeld;
    forall f: seq<Claimed> ensures TakesOne(table, to, c, 0, sym, f) {
      assert TakesOne(table, Some(d), c, 0, sym, f) && FlushesOn(table, d, to, f);
    }
  }

  lemma {:induction false} ClosedSteps(table: seq<Merge>, c: Configuration, sym: Claimed)
    requires |c.stages| == |table| && c.tail == Closed
    ensures Steps(table, c, sym, None)
  {
    hide Takes;
    forall f: seq<Claimed> ensures TakesOne(table, None, c, 0, sym, f) {
      ClosedRefuses(table, c, 0, [sym] + f);
    }
  }

  /** Reads one claimed byte into a configuration, or refuses it. */
  method Successor(table: seq<Merge>, from: Configuration, symbol: Claimed) returns (to: Option<Configuration>)
    requires WellHeld(table, from) && symbol.token < BYTES
    ensures Steps(table, from, symbol, to)
  {
    if from.tail == Closed {
      ClosedSteps(table, from, symbol);
      return None;
    }
    DeliveredTakes(table, from, 0, symbol);
    DeliveredWell(table, from, 0, symbol);
    var delivered := Deliver(table, from, 0, symbol);
    if delivered.None? {
      return None;
    }
    to := Normalize(table, delivered.value);
    NormalizedSteps(table, from, symbol, delivered.value, to);
  }

  /** No symbol held and nothing emitted. */
  function EmptyTower(table: seq<Merge>): Configuration {
    Configuration(Empty, seq(|table|, _ => None))
  }

  /** The empty tower takes exactly the claimed bytes that pass through every stage and end complete. */
  lemma {:induction false} StartTakes(table: seq<Merge>, l: nat, s: seq<Claimed>)
    requires l <= |table|
    ensures Takes(table, EmptyTower(table), l, s) <==> Flow(table, l, s).Some? && Final(Flow(table, l, s).value)
    decreases |table| - l
  {
    hide Joins;
    if l < |table| {
      assert [] + s == s;
      var out := Joins(table[l], ProductOf(l), s);
      if out.Some? {
        StartTakes(table, l + 1, out.value);
      }
    }
  }

  // ----- finitely many configurations -----

  function Stages(m: Merge): set<Option<Claimed>> {
    {None, Some(Claimed(m.left, false)), Some(Claimed(m.left, true))}
  }

  /** The ways the first stages can hold. */
  ghost function Holdings(table: seq<Merge>, n: nat): set<seq<Option<Claimed>>>
    requires n <= |table|
  {
    if n == 0 then {[]}
    else set front, stage | front in Holdings(table, n - 1) && stage in Stages(table[n - 1]) :: front + [stage]
  }

  ghost function Universe(table: seq<Merge>): set<Configuration> {
    set tail, stages | tail in {Empty, Open, Closed} && stages in Holdings(table, |table|) ::
      Configuration(tail, stages)
  }

  lemma {:induction false} HeldInStages(table: seq<Merge>, c: Configuration, l: nat)
    requires l < |table| && l < |c.stages| && HoldsLeft(table, c, l)
    ensures c.stages[l] in Stages(table[l])
  {
    var held := c.stages[l];
    if held.Some? {
      assert held == Some(Claimed(table[l].left, held.value.claim));
    }
  }

  lemma {:induction false} HeldIn(table: seq<Merge>, c: Configuration, n: nat)
    requires WellHeld(table, c) && n <= |table|
    ensures c.stages[..n] in Holdings(table, n)
  {
    if n > 0 {
      HeldIn(table, c, n - 1);
      HeldInStages(table, c, n - 1);
      hide WellHeld, Stages;
      assert c.stages[..n] == c.stages[..n - 1] + [c.stages[n - 1]];
    }
  }

  lemma {:induction false} WellHeldIn(table: seq<Merge>, c: Configuration)
    requires WellHeld(table, c)
    ensures c in Universe(table)
  {
    HeldIn(table, c, |table|);
    assert c.stages[..|table|] == c.stages;
    match c.tail
    case Empty =>
    case Open =>
    case Closed =>
  }

  // ----- the exploration -----

  /** Each configuration found has one state. */
  ghost predicate Interns(table: seq<Merge>, sources: seq<Configuration>, interned: map<Configuration, nat>) {
    && (forall q | 0 <= q < |sources| ::
      WellHeld(table, sources[q]) && sources[q] in interned && interned[sources[q]] == q)
    && (forall c | c in interned :: interned[c] < |sources| && sources[interned[c]] == c)
  }

  /** The input may end in the configuration. */
  ghost predicate TakesEnd(table: seq<Merge>, c: Configuration) {
    |c.stages| == |table| && Takes(table, c, 0, [])
  }

  /** A state accepts where the input may end in its configuration. */
  ghost predicate AcceptsEnds(table: seq<Merge>, sources: seq<Configuration>, accepting: set<nat>) {
    && (forall q | q in accepting :: q < |sources|)
    && (forall q: nat | q < |sources| :: q in accepting <==> TakesEnd(table, sources[q]))
  }

  /** The transition on a symbol, or its absence, is what the source's configuration takes next. */
  ghost predicate Moves(
      table: seq<Merge>, sources: seq<Configuration>, transitions: map<(nat, Claimed), nat>, q: nat, sym: Claimed)
  {
    && q < |sources| && |sources[q].stages| == |table|
    && if (q, sym) in transitions then
         && transitions[(q, sym)] < |sources| && |sources[transitions[(q, sym)]].stages| == |table|
         && TakesNext(table, Some(sources[transitions[(q, sym)]]), sources[q], 0, sym)
       else TakesNext(table, None, sources[q], 0, sym)
  }

  ghost predicate Expanded(
      table: seq<Merge>, sources: seq<Configuration>, transitions: map<(nat, Claimed), nat>, q: nat)
  {
    forall sym: Claimed | sym.token < BYTES :: Moves(table, sources, transitions, q, sym)
  }

  lemma {:induction false} MovesInMore(
      table: seq<Merge>, sources: seq<Configuration>, transitions: map<(nat, Claimed), nat>,
      more: seq<Configuration>, wider: map<(nat, Claimed), nat>, q: nat, sym: Claimed)
    requires Moves(table, sources, transitions, q, sym) && sources <= more
    requires (q, sym) in transitions <==> (q, sym) in wider
    requires (q, sym) in transitions ==> wider[(q, sym)] == transitions[(q, sym)]
    ensures Moves(table, more, wider, q, sym)
  {
    hide TakesNext;
  }

  lemma {:induction false} ExpandedInMore(
      table: seq<Merge>, sources: seq<Configuration>, transitions: map<(nat, Claimed), nat>,
      more: seq<Configuration>, wider: map<(nat, Claimed), nat>, q: nat)
    requires Expanded(table, sources, transitions, q) && sources <= more
    requires forall sym: Claimed :: (q, sym) in transitions <==> (q, sym) in wider
    requires forall sym: Claimed | (q, sym) in transitions :: wider[(q, sym)] == transitions[(q, sym)]
    ensures Expanded(table, more, wider, q)
  {
    hide Moves;
    forall sym: Claimed | sym.token < BYTES ensures Moves(table, more, wider, q, sym) {
      assert Moves(table, sources, transitions, q, sym);
      MovesInMore(table, sources, transitions, more, wider, q, sym);
    }
  }

  /** There are no more states than configurations. */
  lemma {:induction false} InternedBounded(
      table: seq<Merge>, sources: seq<Configuration>, interned: map<Configuration, nat>)
    requires Interns(table, sources, interned)
    ensures |sources| <= |Universe(table)|
  {
    forall i, j | 0 <= i < j < |sources| ensures sources[i] != sources[j] {
      assert interned[sources[i]] == i && interned[sources[j]] == j;
    }
    Counting.ImageSize(sources);
    hide WellHeld, Universe;
    forall c | c in Counting.Image(sources) ensures c in Universe(table) {
      var q :| 0 <= q < |sources| && sources[q] == c;
      WellHeldIn(table, c);
    }
    Counting.SubsetSize(Counting.Image(sources), Universe(table));
  }

  lemma {:induction false} InternMore(
      table: seq<Merge>, sources: seq<Configuration>, interned: map<Configuration, nat>, c: Configuration)
    requires Interns(table, sources, interned) && c !in interned && WellHeld(table, c)
    ensures Interns(table, sources + [c], interned[c := |sources|])
  {
    hide WellHeld;
  }

  lemma {:induction false} AcceptsMore(
      table: seq<Merge>, sources: seq<Configuration>, accepting: set<nat>, c: Configuration, accepts: bool)
    requires AcceptsEnds(table, sources, accepting) && (accepts <==> TakesEnd(table, c))
    ensures AcceptsEnds(table, sources + [c], if accepts then accepting + {|sources|} else accepting)
  {
    hide TakesEnd;
  }

  lemma WellCounted(table: seq<Merge>, c: Configuration)
    requires WellHeld(table, c)
    ensures |c.stages| == |table|
  {
  }

  class Exploration {
    const table: seq<Merge>
    var sources: seq<Configuration>
    var transitions: map<(nat, Claimed), nat>
    var accepting: set<nat>
    var interned: map<Configuration, nat>

    ghost predicate Valid()
      reads this
    {
      Interns(table, sources, interned) && AcceptsEnds(table, sources, accepting)
    }

    constructor (table: seq<Merge>)
      ensures Valid() && this.table == table && sources == [] && transitions == map[]
    {
      this.table := table;
      sources, transitions, accepting, interned := [], map[], {}, map[];
    }

    /** The number of a configuration, given out on first sight. */
    method Intern(c: Configuration) returns (state: nat)
      requires Valid() && WellHeld(table, c)
      modifies this
      ensures Valid() && state < |sources| && sources[state] == c
      ensures old(sources) <= sources && transitions == old(transitions)
      ensures old(sources) == [] ==> state == 0
    {
      hide WellHeld, Takes;
      if c in interned {
        return interned[c];
      }
      WellCounted(table, c);
      var accepts := IsAccepting(table, c);
      InternMore(table, sources, interned, c);
      AcceptsMore(table, sources, accepting, c, accepts);
      hide Interns, AcceptsEnds;
      state := |sources|;
      if accepts {
        accepting := accepting + {state};
      }
      sources, interned := sources + [c], interned[c := state];
    }

    /** Reads one claimed byte from a state, interning the configuration reached. */
    method Read(state: nat, symbol: Claimed)
      requires Valid() && state < |sources| && symbol.token < BYTES && (state, symbol) !in transitions
      modifies this
      ensures Valid() && old(sources) <= sources && Moves(table, sources, transitions, state, symbol)
      ensures forall k | k in old(transitions) :: k in transitions && transitions[k] == old(transitions)[k]
      ensures forall k | k in transitions :: k in old(transitions) || k == (state, symbol)
    {
      assert WellHeld(table, sources[state]);
      WellCounted(table, sources[state]);
      var next := Successor(table, sources[state], symbol);
      hide Interns, AcceptsEnds, WellHeld, TakesNext;
      if next.Some? {
        WellCounted(table, next.value);
        var to := Intern(next.value);
        transitions := transitions[(state, symbol) := to];
      }
    }

    /** Reads every claimed byte from one state. */
    method Expand(state: nat)
      requires Valid() && state < |sources|
      requires forall k | k in transitions :: k.0 < state
      modifies this
      ensures Valid() && old(sources) <= sources && Expanded(table, sources, transitions, state)
      ensures forall k | k in old(transitions) :: k in transitions && transitions[k] == old(transitions)[k]
      ensures forall k | k in transitions :: k in old(transitions) || (k.0 == state && k.1.token < BYTES)
    {
      hide Interns, AcceptsEnds, Moves;
      for byte := 0 to BYTES
        invariant Valid() && old(sources) <= sources
        invariant forall k | k in old(transitions) :: k in transitions && transitions[k] == old(transitions)[k]
        invariant forall k | k in transitions :: k in old(transitions) || (k.0 == state && k.1.token < byte)
        invariant forall sym: Claimed | sym.token < byte :: Moves(table, sources, transitions, state, sym)
      {
        ReadBoth(state, byte);
      }
    }

    /** Reads a byte without a boundary claimed after it and with one. */
    method ReadBoth(state: nat, byte: Token)
      requires Valid() && state < |sources| && byte < BYTES
      requires forall k | k in transitions :: k.0 < state || (k.0 == state && k.1.token < byte)
      requires forall sym: Claimed | sym.token < byte :: Moves(table, sources, transitions, state, sym)
      modifies this
      ensures Valid() && old(sources) <= sources
      ensures forall k | k in old(transitions) :: k in transitions && transitions[k] == old(transitions)[k]
      ensures forall k | k in transitions :: k in old(transitions) || (k.0 == state && k.1.token == byte)
      ensures forall sym: Claimed | sym.token < byte + 1 :: Moves(table, sources, transitions, state, sym)
    {
      hide Interns, AcceptsEnds, Moves;
      Read(state, Claimed(byte, false));
      label half:
      Read(state, Claimed(byte, true));
      forall sym: Claimed | sym.token < byte + 1 ensures Moves(table, sources, transitions, state, sym) {
        if sym.token < byte {
          MovesInMore(table, old(sources), old(transitions), sources, transitions, state, sym);
        } else if !sym.claim {
          MovesInMore(table, old@half(sources), old@half(transitions), sources, transitions, state, sym);
        }
      }
    }

    /** Numbers and expands configurations, from the empty one, until all found are expanded. */
    method Run() returns (verifier: Verifier<Claimed>)
      requires Valid() && sources == [] && transitions == map[]
      modifies this
      ensures forall s: seq<Claimed> | IsBytes(s) :: verifier.Accepts(s) <==> Encodes(table, s)
      ensures forall k | k in verifier.transitions :: k.1.token < BYTES
    {
      hide Interns, AcceptsEnds, Expanded;
      StartWell(table);
      var start := Intern(EmptyTower(table));
      var state := 0;
      while state < |sources|
        invariant Valid() && sources != [] && sources[0] == EmptyTower(table) && state <= |sources|
        invariant forall k | k in transitions :: k.0 < state && k.1.token < BYTES
        invariant forall q: nat | q < state :: Expanded(table, sources, transitions, q)
        decreases |Universe(table)| - state
      {
        InternedBounded(table, sources, interned);
        label before:
        Expand(state);
        forall q: nat | q < state ensures Expanded(table, sources, transitions, q) {
          ExpandedInMore(table, old@before(sources), old@before(transitions), sources, transitions, q);
        }
        state := state + 1;
      }
      verifier := Verifier(start, transitions, accepting, map[], map[]);
      forall s: seq<Claimed> | IsBytes(s) ensures verifier.Accepts(s) <==> Encodes(table, s) {
        AcceptsTaken(table, sources, verifier, 0, s);
        StartTakes(table, 0, s);
      }
    }
  }

  lemma StartWell(table: seq<Merge>)
    ensures WellHeld(table, EmptyTower(table))
  {
  }

  /** The explored automaton accepts from a state what its configuration takes. */
  lemma {:induction false} AcceptsTaken(
      table: seq<Merge>, sources: seq<Configuration>, verifier: Verifier<Claimed>, q: nat, s: seq<Claimed>)
    requires AcceptsEnds(table, sources, verifier.accepting) && q < |sources| && IsBytes(s)
    requires forall p: nat | p < |sources| :: Expanded(table, sources, verifier.transitions, p)
    ensures |sources[q].stages| == |table|
    ensures verifier.AcceptsFrom(q, s) <==> Takes(table, sources[q], 0, s)
    decreases |s|
  {
    assert Expanded(table, sources, verifier.transitions, q);
    assert Moves(table, sources, verifier.transitions, q, Claimed(0, false));
    hide Takes;
    if s != [] {
      assert Moves(table, sources, verifier.transitions, q, s[0]);
      assert [s[0]] + s[1..] == s;
      if (q, s[0]) in verifier.transitions {
        var to := verifier.transitions[(q, s[0])];
        AcceptsTaken(table, sources, verifier, to, s[1..]);
        assert TakesOne(table, Some(sources[to]), sources[q], 0, s[0], s[1..]);
      } else {
        assert TakesOne(table, None, sources[q], 0, s[0], s[1..]);
      }
    }
  }

  // ----- the tower -----

  /**
    Builds the verifier of canonical encoding over a table: it accepts a marked byte
    string exactly where its marks are the interior boundaries of the encoding.
   */
  method BuildTower(table: seq<Merge>) returns (verifier: Verifier<Claimed>, states: nat)
    requires Admissible(table)
    ensures forall s: seq<Claimed> | IsBytes(s) :: verifier.Accepts(s) <==> MarksEncoded(table, s)
    ensures IsTrim(verifier, states) && forall k | k in verifier.transitions :: k.1.token < BYTES
  {
    hide IsTrim;
    var exploration := new Exploration(table);
    var explored := exploration.Run();
    verifier, states := Trim(explored);
    forall k | k in verifier.transitions ensures k.1.token < BYTES {
      var q: nat :| (q, k.1) in explored.transitions;
      assert (q, k.1).1 == k.1;
    }
    forall s: seq<Claimed> | IsBytes(s) ensures verifier.Accepts(s) <==> MarksEncoded(table, s) {
      EncodesIsEncoding(table, s);
    }
  }

  /** The marks are the interior boundaries of the bytes' encoding. */
  ghost predicate MarksEncoded(table: seq<Merge>, s: seq<Claimed>)
    requires PartsEarlier(table) && IsBytes(s)
  {
    EncodedSpells(table, |table|, BytesOf(s));
    MarksTokens(table, Encoded(table, |table|, BytesOf(s)), Claims(s))
  }

  /** Every byte string has exactly one marking the tower accepts. */
  lemma {:induction false} OneMarking(table: seq<Merge>, verifier: Verifier<Claimed>, w: Word)
    returns (marking: seq<Claimed>)
    requires PartsEarlier(table)
    requires forall s: seq<Claimed> | IsBytes(s) :: verifier.Accepts(s) <==> MarksEncoded(table, s)
    ensures IsBytes(marking) && BytesOf(marking) == w && verifier.Accepts(marking)
    ensures forall s: seq<Claimed> | IsBytes(s) && BytesOf(s) == w && verifier.Accepts(s) :: s == marking
  {
    EncodedSpells(table, |table|, w);
    var tokens := Encoded(table, |table|, w);
    var out := Claiming(tokens);
    ClaimingKnown(table, out);
    FinalMarks(table, out);
    BitsLength(table, out);
    var bits := Bits(table, out);
    hide Encoded, Bits, MarksTokens, Final, Tokens, SpellingOf;
    marking := seq(|w|, i requires 0 <= i < |w| => Claimed(w[i], bits[i]));
    assert BytesOf(marking) == w && Claims(marking) == bits;
    forall s: seq<Claimed> | IsBytes(s) && BytesOf(s) == w && verifier.Accepts(s) ensures s == marking {
      MarksAgree(table, tokens, Claims(s), bits);
      SameClaimed(s, marking);
    }
  }

  lemma {:induction false} SameClaimed(s: seq<Claimed>, t: seq<Claimed>)
    requires IsBytes(s) && IsBytes(t) && BytesOf(s) == BytesOf(t) && Claims(s) == Claims(t)
    ensures s == t
  {
    assert |BytesOf(s)| == |s| && |BytesOf(t)| == |t|;
    forall i | 0 <= i < |s| ensures s[i] == t[i] {
      assert BytesOf(s)[i] == BytesOf(t)[i] && Claims(s)[i] == Claims(t)[i];
    }
  }
}

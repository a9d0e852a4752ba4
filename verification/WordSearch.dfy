/** Breadth-first search for a least word, over keys given by an expansion. */
module WordSearch {
  import opened Options
  import opened Machine
  import opened Search
  import opened Counting

  /** The outcome of a byte at a key: where to go on, or that the search is over here. */
  datatype Step<K> = Step(successors: seq<K>, ends: bool)

  datatype Parent = Parent(from: nat, byte: Byte)

  /** The word leads from the start to the key, no shorter part of it ending as a witness on the way. */
  ghost predicate Leads<K(!new)>(expand: (K, Byte) -> Step<K>, start: K, w: Word, key: K)
    decreases |w|
  {
    if w == [] then key == start
    else
      var front, b := w[..|w| - 1], w[|w| - 1];
      exists k :: Leads(expand, start, front, k) && Passes(expand, k, b, key)
  }

  ghost predicate Passes<K(!new)>(expand: (K, Byte) -> Step<K>, k: K, b: Byte, next: K) {
    !expand(k, b).ends && next in expand(k, b).successors
  }

  /** The input may end on the word's last byte as the witness. */
  ghost predicate EndsOn<K(!new)>(expand: (K, Byte) -> Step<K>, start: K, w: Word) {
    && w != []
    && var front, b := w[..|w| - 1], w[|w| - 1];
       exists k :: Leads(expand, start, front, k) && expand(k, b).ends
  }

  ghost predicate Linked<K(!new)>(expand: (K, Byte) -> Step<K>, m: K, n: K) {
    exists b: Byte :: Passes(expand, m, b, n)
  }

  lemma {:induction false} LeadsSnoc<K(!new)>(expand: (K, Byte) -> Step<K>, start: K, w: Word, k: K, b: Byte, next: K)
    requires Leads(expand, start, w, k) && Passes(expand, k, b, next)
    ensures Leads(expand, start, w + [b], next)
  {
    var v := w + [b];
    assert v[..|v| - 1] == w && v[|v| - 1] == b;
  }

  lemma {:induction false} EndsAtKey<K(!new)>(expand: (K, Byte) -> Step<K>, start: K, w: Word) returns (k: K)
    requires EndsOn(expand, start, w)
    ensures Leads(expand, start, w[..|w| - 1], k) && expand(k, w[|w| - 1]).ends
  {
    k :| Leads(expand, start, w[..|w| - 1], k) && expand(k, w[|w| - 1]).ends;
  }

  /** A word that leads to a key is a walk of keys as long as it. */
  lemma {:induction false} LeadsIsWalk<K(!new)>(expand: (K, Byte) -> Step<K>, start: K, w: Word, key: K)
    returns (walk: seq<K>)
    requires Leads(expand, start, w, key)
    ensures IsWalk((m, n) => Linked(expand, m, n), walk)
    ensures |walk| == |w| + 1 && walk[0] == start && walk[|w|] == key
    decreases |w|
  {
    if w == [] {
      return [key];
    }
    var k :| Leads(expand, start, w[..|w| - 1], k) && Passes(expand, k, w[|w| - 1], key);
    var front := LeadsIsWalk(expand, start, w[..|w| - 1], k);
    assert Linked(expand, k, key);
    walk := front + [key];
    forall i | 0 <= i < |walk| - 1 ensures Linked(expand, walk[i], walk[i + 1]) {
      if i < |front| - 1 {
        var edge := (m, n) => Linked(expand, m, n);
        assert edge(front[i], front[i + 1]);
      }
    }
  }

  /** Along keys each led to by the one before, some input ends, at the latest on the last byte. */
  lemma {:induction false} SomePrefixEnds<K(!new)>(
      expand: (K, Byte) -> Step<K>, start: K, s: Word, keys: seq<K>, k: nat) returns (j: nat)
    requires |keys| == |s| && k < |s| && Leads(expand, start, s[..k], keys[k])
    requires forall i | 0 <= i < |s| - 1 ::
      expand(keys[i], s[i]).ends || keys[i + 1] in expand(keys[i], s[i]).successors
    requires expand(keys[|s| - 1], s[|s| - 1]).ends
    ensures j <= |s| && EndsOn(expand, start, s[..j])
    decreases |s| - k
  {
    var v := s[..k + 1];
    assert v[..|v| - 1] == s[..k] && v[|v| - 1] == s[k];
    if expand(keys[k], s[k]).ends {
      return k + 1;
    }
    assert s[..k + 1] == s[..k] + [s[k]];
    LeadsSnoc(expand, start, s[..k], keys[k], s[k], keys[k + 1]);
    j := SomePrefixEnds(expand, start, s, keys, k + 1);
  }

  /**
    The keys visited in the order admitted, with the parent each was first reached from and the word
    read on the way.
   */
  ghost predicate Admitted<K(!new)>(
      expand: (K, Byte) -> Step<K>, start: K, keys: seq<K>, parents: seq<Parent>, words: seq<Word>, depth: seq<nat>) {
    && 0 < |keys| == |parents| == |words| == |depth|
    && keys[0] == start && words[0] == []
    && Layered(depth)
    && (forall i | 0 < i < |keys| :: parents[i].from < i && words[i] == words[parents[i].from] + [parents[i].byte])
    && (forall i | 0 <= i < |keys| :: Leads(expand, start, words[i], keys[i]) && depth[i] == |words[i]|)
  }

  /** None of the bytes below the bound ends an input, and every key they lead to has been visited. */
  ghost predicate Finished<K(!new)>(expand: (K, Byte) -> Step<K>, keys: seq<K>, k: K, bytes: int) {
    forall b: Byte | b < bytes :: !expand(k, b).ends && AllIn(expand(k, b).successors, keys, |expand(k, b).successors|)
  }

  ghost predicate AllIn<K(!new)>(some: seq<K>, keys: seq<K>, n: nat)
    requires n <= |some|
  {
    forall i | 0 <= i < n :: some[i] in keys
  }

  /** The keys before at are finished and what they lead to is held near; no key is deeper than one past key at. */
  ghost predicate Expanding<K(!new)>(expand: (K, Byte) -> Step<K>, keys: seq<K>, depth: seq<nat>, at: nat) {
    && |keys| == |depth| && at <= |keys|
    && (forall i | 0 <= i < at :: Finished(expand, keys, keys[i], 256))
    && Expanded((m, n) => Linked(expand, m, n), keys, depth, at)
    && (at < |keys| ==> depth[|keys| - 1] <= depth[at] + 1)
  }

  lemma {:induction false} FinishedInMore<K(!new)>(
      expand: (K, Byte) -> Step<K>, keys: seq<K>, more: seq<K>, k: K, bytes: int)
    requires Finished(expand, keys, k, bytes) && keys <= more
    ensures Finished(expand, more, k, bytes)
  {
    forall b: Byte | b < bytes
      ensures !expand(k, b).ends && AllIn(expand(k, b).successors, more, |expand(k, b).successors|)
    {
      forall i | 0 <= i < |expand(k, b).successors| ensures expand(k, b).successors[i] in more {
        assert expand(k, b).successors[i] in keys;
      }
    }
  }

  lemma {:induction false} HeldInMore<K(!new)>(
      keys: seq<K>, depth: seq<nat>, more: seq<K>, deeper: seq<nat>, n: K, most: nat)
    requires |keys| == |depth| && |more| == |deeper| && keys <= more && depth <= deeper
    ensures HeldBy(keys, depth, n, most) ==> HeldBy(more, deeper, n, most)
  {
    if HeldBy(keys, depth, n, most) {
      var j :| 0 <= j < |keys| && keys[j] == n && depth[j] <= most;
      assert more[j] == n && deeper[j] <= most;
    }
  }

  /** Admitting one more key keeps the record and what is expanded. */
  lemma {:induction false} AdmitKeeps<K(!new)>(
      expand: (K, Byte) -> Step<K>, start: K, keys: seq<K>, parents: seq<Parent>, words: seq<Word>, depth: seq<nat>,
      at: nat, b: Byte, next: K)
    requires Admitted(expand, start, keys, parents, words, depth) && Expanding(expand, keys, depth, at)
    requires at < |keys| && Passes(expand, keys[at], b, next)
    ensures Admitted(expand, start, keys + [next], parents + [Parent(at, b)], words + [words[at] + [b]],
      depth + [depth[at] + 1])
    ensures Expanding(expand, keys + [next], depth + [depth[at] + 1], at)
  {
    LeadsSnoc(expand, start, words[at], keys[at], b, next);
    var more, deeper := keys + [next], depth + [depth[at] + 1];
    forall i | 0 <= i < at ensures Finished(expand, more, more[i], 256) {
      FinishedInMore(expand, keys, more, keys[i], 256);
    }
    var edge := (m, n) => Linked(expand, m, n);
    forall i, n | 0 <= i < at && edge(more[i], n) ensures HeldBy(more, deeper, n, deeper[i] + 1) {
      assert edge(keys[i], n);
      HeldInMore(keys, depth, more, deeper, n, depth[i] + 1);
    }
  }

  /** What a finished key leads to is held at most one deeper than it. */
  lemma {:induction false} FinishedIsNear<K(!new)>(
      expand: (K, Byte) -> Step<K>, keys: seq<K>, depth: seq<nat>, at: nat, n: K)
    requires |keys| == |depth| && Layered(depth) && at < |keys| && depth[|keys| - 1] <= depth[at] + 1
    requires Finished(expand, keys, keys[at], 256) && Linked(expand, keys[at], n)
    ensures HeldBy(keys, depth, n, depth[at] + 1)
  {
    var b: Byte :| Passes(expand, keys[at], b, n);
    var some := expand(keys[at], b).successors;
    assert AllIn(some, keys, |some|);
    var i :| 0 <= i < |some| && some[i] == n;
    assert some[i] in keys;
    var j :| 0 <= j < |keys| && keys[j] == n;
    assert j < |keys| - 1 ==> depth[j] <= depth[|keys| - 1];
  }

  /** A key read every byte leaves the next one to expand. */
  lemma {:induction false} FinishKeeps<K(!new)>(
      expand: (K, Byte) -> Step<K>, start: K, keys: seq<K>, parents: seq<Parent>, words: seq<Word>, depth: seq<nat>,
      at: nat)
    requires Admitted(expand, start, keys, parents, words, depth) && Expanding(expand, keys, depth, at)
    requires at < |keys| && Finished(expand, keys, keys[at], 256)
    ensures Expanding(expand, keys, depth, at + 1)
  {
    var edge := (m, n) => Linked(expand, m, n);
    forall i, n | 0 <= i < at + 1 && edge(keys[i], n) ensures HeldBy(keys, depth, n, depth[i] + 1) {
      if i == at {
        FinishedIsNear(expand, keys, depth, at, n);
      }
    }
    hide Finished, Linked, HeldBy;
  }

  /** No input shorter than one byte past the key being expanded ends as a witness. */
  lemma {:induction false} NoShorterEnd<K(!new)>(
      expand: (K, Byte) -> Step<K>, start: K, keys: seq<K>, parents: seq<Parent>, words: seq<Word>, depth: seq<nat>,
      at: nat, w: Word)
    requires Admitted(expand, start, keys, parents, words, depth) && Expanding(expand, keys, depth, at)
    requires EndsOn(expand, start, w)
    ensures at < |keys| && depth[at] + 1 <= |w|
  {
    var front, b := w[..|w| - 1], w[|w| - 1];
    var k :| Leads(expand, start, front, k) && expand(k, b).ends;
    var walk := LeadsIsWalk(expand, start, front, k);
    var n, j := WalkIsHeld((m, n) => Linked(expand, m, n), keys, depth, at, walk);
    forall i | 0 <= i < at ensures !expand(keys[i], b).ends {
      assert Finished(expand, keys, keys[i], 256);
    }
    if at < j {
      assert depth[at] <= depth[j];
    }
  }

  // ----- giving up -----

  ghost predicate IsReached<K(!new)>(expand: (K, Byte) -> Step<K>, start: K, k: K) {
    exists w :: Leads(expand, start, w, k)
  }

  ghost predicate AllReached<K(!new)>(expand: (K, Byte) -> Step<K>, start: K, keys: seq<K>) {
    forall i: nat | i < |keys| :: IsReached(expand, start, keys[i])
  }

  /** More keys than the cap are led to. */
  ghost predicate Exceeds<K(!new)>(expand: (K, Byte) -> Step<K>, start: K, cap: nat) {
    exists keys :: |keys| > cap && Distinct(keys) && AllReached(expand, start, keys)
  }

  /** A cap that covers every key led to is never exceeded. */
  lemma {:induction false} CapSuffices<K(!new)>(expand: (K, Byte) -> Step<K>, start: K, cap: nat, universe: set<K>)
    requires (forall k | IsReached(expand, start, k) :: k in universe) && |universe| <= cap
    ensures !Exceeds(expand, start, cap)
  {
    forall keys | Distinct(keys) && AllReached(expand, start, keys) ensures |keys| <= cap {
      ImageSize(keys);
      forall k | k in Image(keys) ensures k in universe {
        var i :| 0 <= i < |keys| && keys[i] == k;
        assert IsReached(expand, start, keys[i]);
      }
      SubsetSize(Image(keys), universe);
    }
  }

  lemma {:induction false} ReachedIn<K(!new)>(expand: (K, Byte) -> Step<K>, start: K, universe: set<K>, w: Word, k: K)
    requires start in universe
    requires forall m, b: Byte, n | m in universe && n in expand(m, b).successors :: n in universe
    requires Leads(expand, start, w, k)
    ensures k in universe
    decreases |w|
  {
    if w != [] {
      var m :| Leads(expand, start, w[..|w| - 1], m) && Passes(expand, m, w[|w| - 1], k);
      ReachedIn(expand, start, universe, w[..|w| - 1], m);
    }
  }

  /** A cap that covers a set the start is in and every byte leads on within is never exceeded. */
  lemma {:induction false} UniverseSuffices<K(!new)>(expand: (K, Byte) -> Step<K>, start: K, cap: nat, universe: set<K>)
    requires start in universe && |universe| <= cap
    requires forall m, b: Byte, n | m in universe && n in expand(m, b).successors :: n in universe
    ensures !Exceeds(expand, start, cap)
  {
    forall k | IsReached(expand, start, k) ensures k in universe {
      var w :| Leads(expand, start, w, k);
      ReachedIn(expand, start, universe, w, k);
    }
    CapSuffices(expand, start, cap, universe);
  }

  lemma {:induction false} OneMoreExceeds<K(!new)>(
      expand: (K, Byte) -> Step<K>, start: K, keys: seq<K>, parents: seq<Parent>, words: seq<Word>, depth: seq<nat>,
      at: nat, b: Byte, next: K, cap: nat)
    requires Admitted(expand, start, keys, parents, words, depth) && Distinct(keys) && |keys| >= cap
    requires at < |keys| && Passes(expand, keys[at], b, next) && next !in keys
    ensures Exceeds(expand, start, cap)
  {
    LeadsSnoc(expand, start, words[at], keys[at], b, next);
    var more := keys + [next];
    forall i: nat | i < |more| ensures IsReached(expand, start, more[i]) {
      if i < |keys| {
        assert Leads(expand, start, words[i], more[i]);
      } else {
        assert Leads(expand, start, words[at] + [b], more[i]);
      }
    }
    assert AllReached(expand, start, more);
    assert Distinct(more);
  }

  lemma {:induction false} StartExceeds<K(!new)>(expand: (K, Byte) -> Step<K>, start: K)
    ensures Exceeds(expand, start, 0)
  {
    assert Leads(expand, start, [], start);
    assert AllReached(expand, start, [start]) && Distinct([start]);
  }

  /** The search's queue, which keeps everything it held, beside the links back. */
  class KeySearch<K(==,!new)> {
    const expand: (K, Byte) -> Step<K>
    const start: K
    const cap: nat
    var keys: seq<K>
    var parents: seq<Parent>
    ghost var words: seq<Word>
    ghost var depth: seq<nat>

    ghost predicate Valid()
      reads this
    {
      Admitted(expand, start, keys, parents, words, depth) && |keys| <= cap && Distinct(keys)
    }

    constructor (start: K, cap: nat, expand: (K, Byte) -> Step<K>)
      requires cap > 0
      ensures Valid() && Expanding(expand, keys, depth, 0)
      ensures this.start == start && this.cap == cap && this.expand == expand
    {
      this.start, this.cap, this.expand := start, cap, expand;
      keys, parents, words, depth := [start], [Parent(0, 0)], [[]], [0];
    }

    /** Spells the way to a key, one link at a time from the far end, and one byte beyond. */
    method Trail(at: nat, last: Byte) returns (word: Word)
      requires Valid() && at < |keys|
      ensures word == words[at] + [last]
    {
      word := [last];
      var number: nat := at;
      while number != 0
        invariant number < |keys| && words[at] + [last] == words[number] + word
      {
        var parent := parents[number];
        assert words[number] + word == words[parent.from] + ([parent.byte] + word);
        word := [parent.byte] + word;
        number := parent.from;
      }
    }

    /** Admits one key a byte led to, unless it has been visited or the ceiling is reached. */
    method AdmitOne(at: nat, byte: Byte, next: K) returns (room: bool)
      requires Valid() && Expanding(expand, keys, depth, at) && at < |keys| && Passes(expand, keys[at], byte, next)
      modifies this
      ensures old(keys) <= keys
      ensures room ==> Valid() && Expanding(expand, keys, depth, at) && next in keys
      ensures !room ==> Exceeds(expand, start, cap)
    {
      hide Passes, Exceeds, Expanding;
      if next in keys {
        return true;
      }
      if |keys| >= cap {
        OneMoreExceeds(expand, start, keys, parents, words, depth, at, byte, next, cap);
        return false;
      }
      AdmitKeeps(expand, start, keys, parents, words, depth, at, byte, next);
      keys, parents, words, depth :=
        keys + [next], parents + [Parent(at, byte)], words + [words[at] + [byte]], depth + [depth[at] + 1];
      return true;
    }

    /** Takes in the successors not held yet, up to the cap. */
    method Admit(at: nat, byte: Byte, successors: seq<K>) returns (room: bool)
      requires Valid() && Expanding(expand, keys, depth, at) && at < |keys|
      requires !expand(keys[at], byte).ends && successors == expand(keys[at], byte).successors
      modifies this
      ensures old(keys) <= keys
      ensures room ==> Valid() && Expanding(expand, keys, depth, at) && AllIn(successors, keys, |successors|)
      ensures !room ==> Exceeds(expand, start, cap)
    {
      hide Expanding, Admitted;
      for i := 0 to |successors|
        invariant old(keys) <= keys && Valid() && Expanding(expand, keys, depth, at)
        invariant AllIn(successors, keys, i)
      {
        room := AdmitOne(at, byte, successors[i]);
        if !room {
          return;
        }
      }
      room := true;
    }

    /** Reads every byte from one key: the first that ends the input, or the keys they lead to admitted. */
    method Expand(at: nat) returns (ended: Option<Byte>, room: bool)
      requires Valid() && Expanding(expand, keys, depth, at) && at < |keys|
      modifies this
      ensures old(keys) <= keys
      ensures ended.Some? ==> Valid() && Expanding(expand, keys, depth, at) && expand(keys[at], ended.value).ends
      ensures ended.None? && room ==> Valid() && Expanding(expand, keys, depth, at + 1)
      ensures ended.None? && !room ==> Exceeds(expand, start, cap)
    {
      hide Passes, Exceeds, Admitted;
      ghost var key := keys[at];
      for value: int := 0 to 256
        invariant old(keys) <= keys && Valid() && Expanding(expand, keys, depth, at)
        invariant Finished(expand, keys, key, value)
      {
        hide Expanding;
        var byte: Byte := value;
        var step := expand(keys[at], byte);
        if step.ends {
          return Some(byte), true;
        }
        ghost var before := keys;
        room := Admit(at, byte, step.successors);
        if !room {
          return None, false;
        }
        FinishedInMore(expand, before, keys, key, value);
      }
      FinishKeeps(expand, start, keys, parents, words, depth, at);
      return None, true;
    }
  }

  /**
    A shortest input that ends as a witness, where one does; an empty answer from
    an exhausted search proves no input of any length does; one stopped at the cap
    says only that more keys than the cap are led to.
   */
  method RunSearch<K(==,!new)>(start: K, cap: nat, expand: (K, Byte) -> Step<K>) returns (found: Word, exhaustive: bool)
    ensures found != [] ==> exhaustive && EndsOn(expand, start, found)
    ensures found != [] ==> forall w | EndsOn(expand, start, w) :: |found| <= |w|
    ensures found == [] && exhaustive ==> forall w :: !EndsOn(expand, start, w)
    ensures cap == 0 ==> !exhaustive
    ensures !exhaustive ==> Exceeds(expand, start, cap)
  {
    hide Exceeds;
    if cap == 0 {
      StartExceeds(expand, start);
      return [], false;
    }
    var search := new KeySearch(start, cap, expand);
    var at: nat := 0;
    while at < |search.keys|
      invariant search.Valid() && search.start == start && search.cap == cap && search.expand == expand
      invariant at <= |search.keys| && Expanding(expand, search.keys, search.depth, at)
      decreases cap - at
    {
      var ended, room := search.Expand(at);
      if ended.Some? {
        forall w | EndsOn(expand, start, w) ensures search.depth[at] + 1 <= |w| {
          NoShorterEnd(expand, start, search.keys, search.parents, search.words, search.depth, at, w);
        }
        found := search.Trail(at, ended.value);
        assert found[..|found| - 1] == search.words[at];
        return found, true;
      }
      if !room {
        return [], false;
      }
      at := at + 1;
    }
    forall w ensures !EndsOn(expand, start, w) {
      if EndsOn(expand, start, w) {
        NoShorterEnd(expand, start, search.keys, search.parents, search.words, search.depth, at, w);
      }
    }
    return [], true;
  }
}

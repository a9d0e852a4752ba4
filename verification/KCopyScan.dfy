/**
  The k-copy scan: an input cut at anchors, every chunk read from every state its
  cut can carry, and the copies stitched into the one marking the automaton accepts.
 */
module KCopyScan {
  import opened Options
  import opened Machine
  import opened V = Verifiers
  import opened Counting
  import opened CopyReading
  import opened CopyAnchors
  import opened ChunkWorkers
  import opened CopyStitch
  import opened StateClasses
  import opened Suffixes
  import G = GuessedMarking

  // ----- the classes the copies run on -----

  /** Reading under a marking in the projection is reading in the verifier, class by class. */
  lemma {:induction false} ProjectedReads(
      t: Table, n: nat, classes: seq<nat>, p: Table, q: nat, bytes: Word, u: seq<bool>, c: nat)
    requires IsProjection(t, n, classes, p) && InStates(t, n) && q < n
    ensures Reads(p, classes[q], bytes, u, c) <==> exists r: nat :: r < n && Reads(t, q, bytes, u, r) && classes[r] == c
  {
    if |bytes| == |u| {
      ProjectedRun(t, n, classes, p, q, Mark(bytes, u));
    }
  }

  /** The projection accepts what the verifier accepts. */
  lemma {:induction false} ProjectedAccepted(t: Table, n: nat, classes: seq<nat>, p: Table, bytes: Word, u: seq<bool>)
    requires IsProjection(t, n, classes, p) && InStates(t, n)
    ensures Accepted(p, bytes, u) <==> Accepted(t, bytes, u)
  {
    if c: nat :| c in p.accepting && Reads(p, p.start, bytes, u, c) {
      ProjectedReads(t, n, classes, p, t.start, bytes, u, c);
    }
    if q: nat :| q in t.accepting && Reads(t, t.start, bytes, u, q) {
      ProjectedReads(t, n, classes, p, t.start, bytes, u, classes[q]);
    }
  }

  lemma {:induction false} ProjectedFunctional(t: Table, n: nat, classes: seq<nat>, p: Table)
    requires IsProjection(t, n, classes, p) && InStates(t, n) && Functional(t)
    ensures Functional(p)
  {
    hide IsProjection, InStates, Reads;
    forall bytes: Word, u, v, a: nat, b: nat |
      Reads(p, p.start, bytes, u, a) && a in p.accepting && Reads(p, p.start, bytes, v, b) && b in p.accepting
      ensures u == v
    {
      assert Accepted(p, bytes, u) && Accepted(p, bytes, v);
      ProjectedAccepted(t, n, classes, p, bytes, u);
      ProjectedAccepted(t, n, classes, p, bytes, v);
      OneMarking(t, bytes, u, v);
    }
  }

  /** The pair's configurations as classes. */
  function ProjectedPair(pair: Pair, n: nat, classes: seq<nat>): Pair
    requires n <= |classes|
  {
    pair.(configurations := set q | q in pair.configurations && q < n :: classes[q])
  }

  function ProjectedPairs(inventory: seq<Pair>, n: nat, classes: seq<nat>): (pairs: seq<Pair>)
    requires n <= |classes|
    ensures |pairs| == |inventory| && forall i | 0 <= i < |pairs| :: pairs[i] == ProjectedPair(inventory[i], n, classes)
  {
    seq(|inventory|, i requires 0 <= i < |inventory| => ProjectedPair(inventory[i], n, classes))
  }

  lemma {:induction false} ProjectedSound(t: Table, n: nat, classes: seq<nat>, p: Table, pair: Pair)
    requires IsProjection(t, n, classes, p) && InStates(t, n) && SoundPair(t, pair)
    ensures SoundPair(p, ProjectedPair(pair, n, classes))
  {
    forall bytes: Word, u, at: nat, c: nat |
      Accepted(p, bytes, u) && OccursAt(bytes, pair.window, at) && CarriedAt(p, bytes, u, at + pair.origin, c)
      ensures c in ProjectedPair(pair, n, classes).configurations
    {
      var cut := at + pair.origin;
      ProjectedAccepted(t, n, classes, p, bytes, u);
      ProjectedReads(t, n, classes, p, t.start, bytes[..cut], u[..cut], c);
      var r: nat :| r < n && Reads(t, t.start, bytes[..cut], u[..cut], r) && classes[r] == c;
      assert CarriedAt(t, bytes, u, cut, r);
    }
  }

  /** A class a transition enters is on the way from the start to acceptance. */
  lemma {:induction false} EnteredOnTheWay(t: Table, n: nat, classes: seq<nat>, p: Table, q: nat)
    requires IsTrim(t, n) && IsProjection(t, n, classes, p) && q < n && t.Coaccessible(q)
    ensures OnTheWay(p, classes[q])
  {
    var s :| t.Leads(t.start, s, q);
    LeadsRuns(t, t.start, s, q);
    ProjectedRun(t, n, classes, p, t.start, s);
    assert s == Mark(G.BytesOf(s), MarksOnly(s));
    assert Reads(p, p.start, G.BytesOf(s), MarksOnly(s), classes[q]);
    var u :| t.AcceptsFrom(q, u);
    AcceptsRun(t, q, u);
    ProjectedRun(t, n, classes, p, q, u);
    assert u == Mark(G.BytesOf(u), MarksOnly(u));
    assert Reads(p, classes[q], G.BytesOf(u), MarksOnly(u), classes[RunTo(t, q, u).value]);
  }

  function MarksOnly(s: seq<G.Marked>): seq<bool> {
    seq(|s|, i requires 0 <= i < |s| => s[i].closes)
  }

  /** No layer of a copy holds two states of one class: states no marked continuation tells apart. */
  lemma {:induction false} NoClassTwice(
      t: Table, n: nat, classes: seq<nat>, count: nat, p: Table, bytes: Word, entry: nat, layers: seq<seq<Reached>>,
      k: nat, i: nat, j: nat)
    requires IsTrim(t, n) && Functional(t) && AreClasses(t, n, classes, count) && IsProjection(t, n, classes, p)
    requires IsClass(n, classes, entry) && Copied(p, bytes, entry, layers)
    requires k < |layers| && i < |layers[k]| && j < |layers[k]| && layers[k][i].state == layers[k][j].state
    ensures i == j
  {
    if k == 0 {
      CopiedAt(p, bytes, entry, layers, 0);
    } else {
      ProjectedFunctional(t, n, classes, p);
      CopiedAt(p, bytes, entry, layers, k);
      HeldReads(p, bytes, entry, layers, k, i);
      var q: nat :| q < n && classes[q] == entry;
      ProjectedReads(t, n, classes, p, q, bytes[..k], BoundariesAt(layers, k, i), layers[k][i].state);
      var r: nat :|
        r < n && Reads(t, q, bytes[..k], BoundariesAt(layers, k, i), r) && classes[r] == layers[k][i].state;
      hide Copied, IsProjection, AreClasses, Functional;
      BothOnTheWay(t, n, q, bytes[..k], BoundariesAt(layers, k, i), r);
      EnteredOnTheWay(t, n, classes, p, q);
      EnteredOnTheWay(t, n, classes, p, r);
      LayersNeverRepeat(p, bytes, entry, layers, k, i, j);
    }
  }

  /** A state read into can reach acceptance, and so can the state read from. */
  lemma {:induction false} BothOnTheWay(t: Table, n: nat, q: nat, bytes: Word, u: seq<bool>, r: nat)
    requires IsTrim(t, n) && q < n && bytes != [] && Reads(t, q, bytes, u, r)
    ensures t.Coaccessible(q) && t.Coaccessible(r)
  {
    var k := |bytes| - 1;
    var m := ReadsSplit(t, q, bytes, u, r, k);
    assert bytes[k..] == [bytes[k]] && u[k..] == [u[k]];
    ReadsByte(t, m, bytes[k], u[k], r);
    assert (m, G.Marked(bytes[k], u[k])) in t.transitions;
    assert t.transitions[(m, G.Marked(bytes[k], u[k]))] == r && r < n && t.Coaccessible(r);
    var s :| t.AcceptsFrom(r, s);
    AcceptsRun(t, r, s);
    RunJoin(t, q, Mark(bytes, u), s);
    AcceptsRun(t, q, Mark(bytes, u) + s);
  }

  // ----- what the chunks report -----

  /** A chunk as scanned: its copies, and the cut by which its marking is settled. */
  datatype ScannedChunk = ScannedChunk(begin: nat, end: nat, copies: nat, resolved: nat)

  /** The marking and the chunks; refused where no marking is accepted; malformed where a window of the inventory is. */
  datatype Outcome = Malformed | Refused | Scanned(boundaries: seq<bool>, chunks: seq<ScannedChunk>)

  predicate WellFormed(pair: Pair) {
    pair.window != [] && pair.origin < |pair.window|
  }

  /** The first level past the chunk at which every chain kept passes through one exit of it. */
  ghost predicate Resolves(levels: Levels, chunk: nat, l: nat)
    requires Rooted(levels)
  {
    && chunk < l < |levels|
    && var past := chunk + 1;
       ShareAt(levels, l, past) && forall k: nat | past <= k < l :: !ShareAt(levels, k, past)
  }

  /** The markings give the chunk the same boundaries. */
  ghost predicate AgreeOn(s: Scan, u: seq<bool>, v: seq<bool>, chunk: nat) {
    && chunk + 1 < |s.cuts| && s.cuts[chunk] <= s.cuts[chunk + 1] <= |u| && s.cuts[chunk + 1] <= |v|
    && u[s.cuts[chunk]..s.cuts[chunk + 1]] == v[s.cuts[chunk]..s.cuts[chunk + 1]]
  }

  /** At the level every chain kept marks the chunk as the result does. */
  ghost predicate Settles(s: Scan, levels: Levels, boundaries: seq<bool>, chunk: nat, l: nat)
    requires Rooted(levels) && l < |levels|
  {
    forall i: nat | i < |levels[l]| :: AgreeOn(s, ChainOf(levels, l, i), boundaries, chunk)
  }

  /** At a level whose chains share one past the chunk, every chain marks the chunk as any chain of the end does. */
  lemma {:induction false} SharedSettles(s: Scan, levels: Levels, end: nat, chunk: nat, l: nat)
    requires s.Valid() && AllStitched(s, levels) && chunk < s.Chunks() && |levels| == s.Chunks() + 1
    requires chunk < l < |levels| && ShareAt(levels, l, chunk + 1) && end < |levels[s.Chunks()]|
    ensures Settles(s, levels, ChainOf(levels, s.Chunks(), end), chunk, l)
  {
    var last := s.Chunks();
    var j := AncestorOf(levels, last, end, l);
    ChainExtendsAncestor(levels, last, end, l);
    hide Scan.Valid, AllStitched, ChainOf;
    forall i: nat | i < |levels[l]| ensures AgreeOn(s, ChainOf(levels, l, i), ChainOf(levels, last, end), chunk) {
      SharedChunk(s, levels, l, i, j, chunk + 1, chunk);
    }
  }

  /** The first later level whose chains share one past the chunk. */
  method Resolving(ghost levels: Levels, common: seq<nat>, chunk: nat) returns (l: nat)
    requires Rooted(levels) && AreCommon(levels, common)
    requires chunk + 1 < |common| && common[|common| - 1] == |common| - 1
    ensures Resolves(levels, chunk, l)
  {
    hide ShareAt, Rooted;
    ghost var past := chunk + 1;
    l := chunk + 1;
    while common[l] <= chunk
      invariant chunk < l < |common| && forall k: nat | past <= k < l :: !ShareAt(levels, k, past)
      decreases |common| - l
    {
      assert IsCommon(levels, l, common[l]);
      CommonPast(levels, l, common[l], chunk);
      l := l + 1;
    }
    assert IsCommon(levels, l, common[l]);
    CommonPast(levels, l, common[l], chunk);
  }

  /** All chains kept at the level mark the input alike up to the cut. */
  ghost predicate Agreed(levels: Levels, l: nat, cut: nat)
    requires Rooted(levels) && l < |levels|
  {
    forall i: nat, j: nat | i < |levels[l]| && j < |levels[l]| ::
      && cut <= |ChainOf(levels, l, i)| && cut <= |ChainOf(levels, l, j)|
      && ChainOf(levels, l, i)[..cut] == ChainOf(levels, l, j)[..cut]
  }

  /** The first level past the chunk whose chains agree up to the chunk's end. */
  ghost predicate FirstAgreed(s: Scan, levels: Levels, chunk: nat, l: nat)
    requires Rooted(levels)
  {
    && chunk < l < |levels| <= |s.cuts|
    && var end := s.cuts[chunk + 1];
       Agreed(levels, l, end) && forall k: nat | chunk < k < l :: !Agreed(levels, k, end)
  }

  lemma {:induction false} AgreedIsShared(s: Scan, levels: Levels, l: nat, k: nat)
    requires s.Valid() && AllStitched(s, levels) && k <= l < |levels|
    ensures k < |s.cuts| && (Agreed(levels, l, s.cuts[k]) <==> ShareAt(levels, l, k))
  {
    hide ChainOf, AncestorOf, Scan.Valid;
    assert |levels| <= |s.cuts|;
    hide AllStitched;
    forall i: nat, j: nat | i < |levels[l]| && j < |levels[l]|
      ensures s.cuts[k] <= |ChainOf(levels, l, i)| && s.cuts[k] <= |ChainOf(levels, l, j)|
      ensures AncestorOf(levels, l, i, k) == AncestorOf(levels, l, j, k)
         <==> ChainOf(levels, l, i)[..s.cuts[k]] == ChainOf(levels, l, j)[..s.cuts[k]]
    {
      ShareIsAgreeing(s, levels, l, k, i, j);
    }
  }

  /** Resolving by shared chains is resolving by agreement on the marking. */
  lemma {:induction false} ResolvesIsAgreed(s: Scan, levels: Levels, chunk: nat, l: nat)
    requires s.Valid() && AllStitched(s, levels) && Resolves(levels, chunk, l)
    ensures FirstAgreed(s, levels, chunk, l)
  {
    AgreedIsShared(s, levels, l, chunk + 1);
    var end := s.cuts[chunk + 1];
    forall k: nat | chunk < k < l ensures !Agreed(levels, k, end) {
      AgreedIsShared(s, levels, k, chunk + 1);
    }
    assert |levels| <= |s.cuts|;
    hide ShareAt, Agreed, AllStitched, Scan.Valid;
  }

  /**
    The chunk's cuts; its copies, one for the start or one per class its first cut's anchor allows; and the
    first cut at which all chains kept agree up to the chunk's end, and so with the result on the chunk.
   */
  ghost predicate ReportsChunk(s: Scan, levels: Levels, boundaries: seq<bool>, i: nat, c: ScannedChunk)
    requires s.Valid() && Rooted(levels)
  {
    && i < s.Chunks() && c.begin == s.cuts[i] && c.end == s.cuts[i + 1]
    && c.copies == (if i == 0 then 1 else |s.anchors[s.cuts[i]]|)
    && exists l: nat :: FirstAgreed(s, levels, i, l) && c.resolved == s.cuts[l] && Settles(s, levels, boundaries, i, l)
  }

  ghost predicate ReportsAll(s: Scan, levels: Levels, boundaries: seq<bool>, chunks: seq<ScannedChunk>)
    requires s.Valid() && Rooted(levels)
  {
    |chunks| == s.Chunks() && forall i: nat | i < |chunks| :: ReportsChunk(s, levels, boundaries, i, chunks[i])
  }

  method ReportChunks(s: Scan, levels: Levels, ghost boundaries: seq<bool>) returns (chunks: seq<ScannedChunk>)
    requires s.Valid() && AllStitched(s, levels) && Rooted(levels) && |levels| == s.Chunks() + 1
    requires |levels[s.Chunks()]| == 1 && boundaries == ChainOf(levels, s.Chunks(), 0)
    ensures ReportsAll(s, levels, boundaries, chunks)
  {
    hide Scan.Valid, AllStitched, Rooted, ChainOf;
    var common := CommonLevels(levels);
    ChunkCount(s);
    chunks := [];
    for i := 0 to s.Chunks()
      invariant |chunks| == i && forall j: nat | j < i :: ReportsChunk(s, levels, boundaries, j, chunks[j])
    {
      hide ReportsChunk;
      var chunk := ReportOne(s, levels, boundaries, common, i);
      chunks := chunks + [chunk];
    }
  }

  lemma ChunkCount(s: Scan)
    requires s.Valid()
    ensures s.Chunks() == |s.cuts| - 1
  {
  }

  method ReportOne(s: Scan, levels: Levels, ghost boundaries: seq<bool>, common: seq<nat>, i: nat)
    returns (chunk: ScannedChunk)
    requires s.Valid() && AllStitched(s, levels) && Rooted(levels) && |levels| == s.Chunks() + 1 && i < s.Chunks()
    requires |levels[s.Chunks()]| == 1 && boundaries == ChainOf(levels, s.Chunks(), 0)
    requires AreCommon(levels, common) && common[|common| - 1] == |common| - 1
    ensures ReportsChunk(s, levels, boundaries, i, chunk)
  {
    hide Scan.Valid, AllStitched, Rooted, ChainOf, ShareAt, AreCommon;
    CommonLength(levels, common);
    ChunkCount(s);
    var l := Resolving(levels, common, i);
    SharedSettles(s, levels, 0, i, l);
    ResolvesIsAgreed(s, levels, i, l);
    CopiesOf(s, i);
    hide Settles, FirstAgreed, Resolves;
    chunk := ScannedChunk(s.cuts[i], s.cuts[i + 1], |s.ChunkAt(i).entries|, s.cuts[l]);
  }

  lemma {:induction false} CopiesOf(s: Scan, i: nat)
    requires s.Valid() && i < s.Chunks()
    ensures i + 1 < |s.cuts| && (i > 0 ==> s.cuts[i] in s.anchors)
    ensures |s.ChunkAt(i).entries| == if i == 0 then 1 else |s.anchors[s.cuts[i]]|
  {
    assert s.Spans(i);
  }

  lemma CommonLength(levels: Levels, common: seq<nat>)
    requires Rooted(levels) && AreCommon(levels, common)
    ensures |common| == |levels|
  {
  }

  // ----- the scan -----

  /** The scan cuts the input at the inventory's anchors, nearest the targets of the number of chunks. */
  ghost predicate SetsUp(s: Scan, input: Word, inventory: seq<Pair>, chunks: nat, lookahead: nat) {
    && s.input == input && s.lookahead == lookahead
    && (forall c: nat :: AnchorIs(input, inventory, s.anchors, c))
    && AreCuts(s.anchors.Keys, |input|, if chunks < |input| then chunks else |input|, s.cuts)
  }

  method SetUp(t: Table, n: nat, input: Word, inventory: seq<Pair>, chunks: nat, lookahead: nat) returns (s: Scan)
    requires InStates(t, n) && forall i: nat | i < |inventory| :: WellFormed(inventory[i]) && SoundPair(t, inventory[i])
    ensures s.Valid() && s.Sound() && s.t == t && s.n == n && SetsUp(s, input, inventory, chunks, lookahead)
  {
    hide AnchorIs, SoundPair, Accepted, CarriedAt, AreCuts;
    var anchors := AnchorsOf(input, inventory);
    forall c | c in anchors ensures 0 < c < |input| {
      assert AnchorIs(input, inventory, anchors, c);
      AnchorInside(input, inventory, anchors, c);
    }
    var cuts := CutsOf(anchors.Keys, |input|, chunks);
    s := Scan(t, n, input, anchors, cuts, lookahead);
    SetUpValid(s, if chunks < |input| then chunks else |input|);
    forall u, c: nat, q: nat | Accepted(t, input, u) && c in anchors && CarriedAt(t, input, u, c, q)
      ensures q in anchors[c]
    {
      assert AnchorIs(input, inventory, anchors, c);
      AnchorSound(t, input, inventory, anchors, c, u, q);
    }
  }

  lemma {:induction false} SetUpValid(s: Scan, usable: nat)
    requires InStates(s.t, s.n) && AreCuts(s.anchors.Keys, |s.input|, usable, s.cuts)
    requires forall c | c in s.anchors :: 0 < c < |s.input|
    ensures s.Valid()
  {
    hide InStates, IsNextCut;
    forall i: nat | i < |s.cuts| - 1 ensures s.Spans(i) {
      CutsAscend(s.anchors.Keys, |s.input|, usable, s.cuts, i);
    }
    forall i: nat | 0 < i < |s.cuts| - 1 ensures s.cuts[i] in s.anchors && s.cuts[i] < |s.input| {
      CutsAscend(s.anchors.Keys, |s.input|, usable, s.cuts, i - 1);
    }
  }

  /** An occurrence of the window in the input has its cut there. */
  ghost predicate CutsAt(input: Word, pair: Pair, c: nat) {
    && pair.origin <= c && c - pair.origin + |pair.window| <= |input|
    && input[c - pair.origin..c - pair.origin + |pair.window|] == pair.window
  }

  /** One of the pair's configurations is in the class. */
  ghost predicate AllowsClass(pair: Pair, n: nat, classes: seq<nat>, k: nat)
    requires n <= |classes|
  {
    exists q :: q in pair.configurations && q < n && classes[q] == k
  }

  /**
    The anchors are the cuts of the inventory's occurrences past the input's start, each with the classes
    that every window with an occurrence cut there has a configuration in.
   */
  ghost predicate AreAnchors(
      input: Word, inventory: seq<Pair>, n: nat, classes: seq<nat>, anchors: map<nat, set<nat>>)
  {
    && n <= |classes|
    && (forall c: nat :: c in anchors <==> c > 0 && exists i: nat :: i < |inventory| && CutsAt(input, inventory[i], c))
    && forall c: nat, k: nat | c in anchors ::
         k in anchors[c] <==>
           forall i: nat | i < |inventory| && CutsAt(input, inventory[i], c) :: AllowsClass(inventory[i], n, classes, k)
  }

  lemma {:induction false} AnchorsIsCutsAt(input: Word, pair: Pair, n: nat, classes: seq<nat>, c: nat)
    requires n <= |classes|
    ensures Anchors(input, ProjectedPair(pair, n, classes), c) <==> CutsAt(input, pair, c)
  {
  }

  lemma {:induction false} SetsUpAnchors(
      s: Scan, input: Word, inventory: seq<Pair>, n: nat, classes: seq<nat>, chunks: nat, lookahead: nat)
    requires n <= |classes| && SetsUp(s, input, ProjectedPairs(inventory, n, classes), chunks, lookahead)
    ensures AreAnchors(input, inventory, n, classes, s.anchors)
  {
    var pairs := ProjectedPairs(inventory, n, classes);
    forall i: nat, c: nat | i < |inventory| ensures Anchors(input, pairs[i], c) <==> CutsAt(input, inventory[i], c) {
      AnchorsIsCutsAt(input, inventory[i], n, classes, c);
    }
    forall i: nat, k: nat | i < |inventory|
      ensures k in pairs[i].configurations <==> AllowsClass(inventory[i], n, classes, k)
    {
    }
    hide Anchors, CutsAt, AllowsClass, AreCuts, ProjectedPairs, ProjectedPair;
    forall c: nat
      ensures c in s.anchors <==> c > 0 && exists i: nat :: i < |inventory| && CutsAt(input, inventory[i], c)
      ensures c in s.anchors ==> forall k: nat :: k in s.anchors[c] <==>
                forall i: nat | i < |inventory| && CutsAt(input, inventory[i], c) ::
                  AllowsClass(inventory[i], n, classes, k)
    {
      assert AnchorIs(input, pairs, s.anchors, c);
      AnchorTranslated(input, inventory, pairs, n, classes, s.anchors, c);
    }
  }

  lemma {:induction false} AnchorTranslated(
      input: Word, inventory: seq<Pair>, pairs: seq<Pair>, n: nat, classes: seq<nat>, anchors: map<nat, set<nat>>,
      c: nat)
    requires n <= |classes| && |pairs| == |inventory| && AnchorIs(input, pairs, anchors, c)
    requires forall i: nat | i < |inventory| :: Anchors(input, pairs[i], c) <==> CutsAt(input, inventory[i], c)
    requires forall i: nat, k: nat | i < |inventory| ::
      k in pairs[i].configurations <==> AllowsClass(inventory[i], n, classes, k)
    ensures c in anchors <==> c > 0 && exists i: nat :: i < |inventory| && CutsAt(input, inventory[i], c)
    ensures c in anchors ==> forall k: nat :: k in anchors[c] <==>
              forall i: nat | i < |inventory| && CutsAt(input, inventory[i], c) ::
                AllowsClass(inventory[i], n, classes, k)
  {
    hide Anchors, CutsAt, AllowsClass;
  }

  /** The scan and the stitch of one call: on the classes' verifier, at the inventory's anchors, every chain kept. */
  datatype Stitching = Stitching(classes: seq<nat>, count: nat, scan: Scan, levels: Levels)

  ghost predicate IsStitching(
      t: Table, n: nat, input: Word, inventory: seq<Pair>, chunks: nat, lookahead: nat, st: Stitching)
  {
    && AreClasses(t, n, st.classes, st.count) && IsProjection(t, n, st.classes, st.scan.t) && st.scan.n == st.count
    && st.scan.input == input && st.scan.lookahead == lookahead
    && AreAnchors(input, inventory, n, st.classes, st.scan.anchors)
    && AreCuts(st.scan.anchors.Keys, |input|, if chunks < |input| then chunks else |input|, st.scan.cuts)
    && st.scan.Valid() && AllStitched(st.scan, st.levels) && |st.levels| == st.scan.Chunks() + 1
  }

  /**
    Chunks of the input are read from all the classes possible where they start,
    and the readings joined. The outcome is the unique accepted marking, or none if
    the verifier accepts none; beside it, for every chunk, the least cut from which
    on all chains still kept mark it alike.
   */
  method ScanInCopies(t: Table, n: nat, input: Word, inventory: seq<Pair>, chunks: nat, lookahead: nat)
    returns (outcome: Outcome, ghost st: Stitching)
    requires IsTrim(t, n) && Functional(t) && forall i: nat | i < |inventory| :: SoundPair(t, inventory[i])
    ensures outcome.Malformed? <==> exists i: nat :: i < |inventory| && inventory[i].origin >= |inventory[i].window|
    ensures outcome.Refused? ==> forall u :: !Accepted(t, input, u)
    ensures outcome.Scanned? ==> forall u :: Accepted(t, input, u) <==> u == outcome.boundaries
    ensures outcome.Scanned? ==> IsStitching(t, n, input, inventory, chunks, lookahead, st)
    ensures outcome.Scanned? ==> ReportsAll(st.scan, st.levels, outcome.boundaries, outcome.chunks)
  {
    FormedIsInside(inventory);
    hide IsTrim, SoundPair, InStates, Functional, AreClasses, IsProjection, WellFormed;
    st := Stitching([], 0, Scan(t, n, input, map[], [], lookahead), []);
    for i := 0 to |inventory|
      invariant forall j: nat | j < i :: WellFormed(inventory[j])
    {
      if !WellFormed(inventory[i]) {
        return Malformed, st;
      }
    }
    TrimInStates(t, n);
    var classes, count := ClassesOf(t, n);
    var p := Project(t, n, classes, count);
    ProjectionLength(t, n, classes, p);
    var pairs := ProjectedPairs(inventory, n, classes);
    forall i: nat | i < |pairs| ensures WellFormed(pairs[i]) && SoundPair(p, pairs[i]) {
      ProjectedSound(t, n, classes, p, inventory[i]);
      WellFormedProjected(inventory[i], n, classes);
    }
    ProjectedFunctional(t, n, classes, p);
    var levels: Levels;
    ghost var scan;
    outcome, scan, levels := ScanClasses(p, count, input, pairs, chunks, lookahead);
    st := Stitching(classes, count, scan, levels);
    SetsUpAnchors(scan, input, inventory, n, classes, chunks, lookahead);
    SetsUpCuts(scan, input, pairs, chunks, lookahead);
    hide AreAnchors, AreCuts;
    hide Accepted, SetsUp, AllStitched, ReportsAll, Scan.Valid, ProjectedPairs;
    forall u ensures Accepted(p, input, u) <==> Accepted(t, input, u) {
      ProjectedAccepted(t, n, classes, p, input, u);
    }
  }

  lemma FormedIsInside(inventory: seq<Pair>)
    ensures forall i: nat | i < |inventory| :: WellFormed(inventory[i]) <==> inventory[i].origin < |inventory[i].window|
  {
  }

  lemma SetsUpCuts(s: Scan, input: Word, inventory: seq<Pair>, chunks: nat, lookahead: nat)
    requires SetsUp(s, input, inventory, chunks, lookahead)
    ensures s.input == input && s.lookahead == lookahead
    ensures AreCuts(s.anchors.Keys, |input|, if chunks < |input| then chunks else |input|, s.cuts)
  {
  }

  lemma ProjectionLength(t: Table, n: nat, classes: seq<nat>, p: Table)
    requires IsProjection(t, n, classes, p)
    ensures n <= |classes|
  {
  }

  lemma WellFormedProjected(pair: Pair, n: nat, classes: seq<nat>)
    requires n <= |classes|
    ensures WellFormed(ProjectedPair(pair, n, classes)) <==> WellFormed(pair)
  {
  }

  /** Scans on the classes. */
  method ScanClasses(t: Table, n: nat, input: Word, inventory: seq<Pair>, chunks: nat, lookahead: nat)
    returns (outcome: Outcome, s: Scan, levels: Levels)
    requires InStates(t, n) && Functional(t)
    requires forall i: nat | i < |inventory| :: WellFormed(inventory[i]) && SoundPair(t, inventory[i])
    ensures !outcome.Malformed? && s.t == t && s.n == n && SetsUp(s, input, inventory, chunks, lookahead) && s.Valid()
    ensures outcome.Refused? ==> forall u :: !Accepted(t, input, u)
    ensures outcome.Scanned? ==> forall u :: Accepted(t, input, u) <==> u == outcome.boundaries
    ensures outcome.Scanned? ==> AllStitched(s, levels) && |levels| == s.Chunks() + 1
    ensures outcome.Scanned? ==> ReportsAll(s, levels, outcome.boundaries, outcome.chunks)
  {
    hide SoundPair, InStates, Functional, Scan.Sound, Scan.Valid, Stitched, AllStitched, ReportsAll, AreWorkers,
      Accepted, SetsUp;
    s := SetUp(t, n, input, inventory, chunks, lookahead);
    SetsUpInput(s, input, inventory, chunks, lookahead);
    var workers := RunWorkers(s);
    var stitched := Stitch(s, workers);
    levels := [];
    if stitched.None? {
      return Refused, s, levels;
    }
    levels := stitched.value;
    LastStitched(s, levels);
    OneAtTheEnd(s, levels);
    var boundaries := SegmentationOf(levels, s.Chunks(), 0);
    LastAccepted(s, levels, 0);
    var report := ReportChunks(s, levels, boundaries);
    OneAccepted(t, input, boundaries);
    outcome := Scanned(boundaries, report);
  }

  lemma SetsUpInput(s: Scan, input: Word, inventory: seq<Pair>, chunks: nat, lookahead: nat)
    requires SetsUp(s, input, inventory, chunks, lookahead)
    ensures s.input == input
  {
  }

  lemma LastStitched(s: Scan, levels: Levels)
    requires s.Valid() && AllStitched(s, levels) && |levels| == s.Chunks() + 1
    ensures Rooted(levels) && Stitched(s, levels, s.Chunks())
  {
  }

  lemma {:induction false} OneAccepted(t: Table, input: Word, boundaries: seq<bool>)
    requires Functional(t) && Accepted(t, input, boundaries)
    ensures forall u :: Accepted(t, input, u) <==> u == boundaries
  {
    hide Functional, Accepted;
    forall u ensures Accepted(t, input, u) <==> u == boundaries {
      if Accepted(t, input, u) {
        OneMarking(t, input, u, boundaries);
      }
    }
  }
}

// The pair-major base: the same counting-sort layout over (A, B) pairs, its
// audit, and the ranked search over its physical segments.

module PairMajor {
  import opened Options
  import opened Ranking
  import opened CellLayout
  import opened LayoutAudit
  import opened PredicateCube
  import opened TopKScan
  import opened IdSort

  datatype Base<V> = Base(layout: Layout<V>, aCount: nat, bCount: nat)

  function PairIndex(bCount: nat, a: nat, b: nat): nat {
    a * bCount + b
  }

  function PairsOf(catA: seq<nat>, catB: seq<nat>, bCount: nat): (cellOf: seq<nat>)
    requires |catA| == |catB|
    ensures |cellOf| == |catA|
  {
    seq(|catA|, g requires 0 <= g < |catA| => PairIndex(bCount, catA[g], catB[g]))
  }

  ghost predicate IsBase<V>(base: Base<V>, catA: seq<nat>, catB: seq<nat>, vectors: seq<V>) {
    && |catA| == |catB| == |vectors|
    && (forall g :: 0 <= g < |catA| ==> catA[g] < base.aCount && catB[g] < base.bCount)
    && IsLayout(base.layout, PairsOf(catA, catB, base.bCount), base.aCount * base.bCount, vectors)
  }

  // --- Audit ---

  /** The uint32 pair index the audit computes from two labels, in or out of their domains. */
  function WrappedPair(bCount: nat, a: nat, b: nat): nat {
    PairIndex(bCount, a, b) % 0x1_0000_0000
  }

  function WrappedPairs(catA: seq<nat>, catB: seq<nat>, bCount: nat): (cellOf: seq<nat>)
    requires |catA| == |catB|
    ensures |cellOf| == |catA|
  {
    seq(|catA|, g requires 0 <= g < |catA| => WrappedPair(bCount, catA[g], catB[g]))
  }

  ghost predicate LabelsInDomain(catA: seq<nat>, catB: seq<nat>, aCount: nat, bCount: nat) {
    && |catA| == |catB|
    && forall g :: 0 <= g < |catA| ==> catA[g] < aCount && catB[g] < bCount
  }

  lemma PairsDoNotWrap(catA: seq<nat>, catB: seq<nat>, aCount: nat, bCount: nat)
    requires LabelsInDomain(catA, catB, aCount, bCount) && aCount * bCount <= UINT32_MAX
    ensures WrappedPairs(catA, catB, bCount) == PairsOf(catA, catB, bCount)
  {
    forall g | 0 <= g < |catA| ensures WrappedPair(bCount, catA[g], catB[g]) == PairIndex(bCount, catA[g], catB[g]) {
      RowMajor(catA[g], aCount, bCount, catB[g]);
    }
  }

  /** audit_against: it tests no label domain, so it passes exactly on the
      layout over the pair indices, whatever labels those come from. */
  method AuditBase<V(==)>(base: Base<V>, rows: nat, catA: seq<nat>, catB: seq<nat>, vectors: seq<V>)
    returns (passed: bool)
    ensures passed <==>
      && |catA| == |catB| == |vectors| == rows
      && IsLayout(base.layout, WrappedPairs(catA, catB, base.bCount), base.aCount * base.bCount, vectors)
  {
    if |catA| != rows || |catB| != rows {
      return false;
    }
    var ref := Reference(WrappedPairs(catA, catB, base.bCount), seq(rows, _ => true), vectors);
    var audit := AuditAgainst(base.layout, ref, rows, base.aCount * base.bCount);
    passed := audit.Passed();
  }

  /** A state that passes is the base of its labels exactly when the labels are in their domains. */
  lemma PassingIsBase<V>(base: Base<V>, catA: seq<nat>, catB: seq<nat>, vectors: seq<V>)
    requires base.aCount * base.bCount <= UINT32_MAX && |catA| == |catB| == |vectors|
    requires IsLayout(base.layout, WrappedPairs(catA, catB, base.bCount), base.aCount * base.bCount, vectors)
    ensures IsBase(base, catA, catB, vectors) <==> LabelsInDomain(catA, catB, base.aCount, base.bCount)
  {
    if LabelsInDomain(catA, catB, base.aCount, base.bCount) {
      PairsDoNotWrap(catA, catB, base.aCount, base.bCount);
    }
  }

  predicate Bytes(labels: seq<nat>) {
    forall g :: 0 <= g < |labels| ==> labels[g] < 256
  }

  /** Moving one row's labels one A down and bCount B up names the same pair, so
      the audit passes on labels that are outside their domain. They are labels
      it can receive, bytes again, exactly when the new B label is below 256. */
  lemma ForeignLabelsPass<V>(base: Base<V>, catA: seq<nat>, catB: seq<nat>, vectors: seq<V>, g: nat)
    requires base.aCount * base.bCount <= UINT32_MAX
    requires IsBase(base, catA, catB, vectors) && g < |catA| && catA[g] > 0
    ensures var a, b := catA[g := catA[g] - 1], catB[g := catB[g] + base.bCount];
      && |a| == |b| == |vectors| && !IsBase(base, a, b, vectors)
      && IsLayout(base.layout, WrappedPairs(a, b, base.bCount), base.aCount * base.bCount, vectors)
      && (Bytes(catA) && Bytes(catB) ==> (Bytes(a) && Bytes(b) <==> catB[g] + base.bCount < 256))
  {
    var a, b := catA[g := catA[g] - 1], catB[g := catB[g] + base.bCount];
    PairsDoNotWrap(catA, catB, base.aCount, base.bCount);
    OneRowDown(base.bCount, catA[g], catB[g]);
    assert WrappedPairs(a, b, base.bCount) == WrappedPairs(catA, catB, base.bCount);
    assert b[g] >= base.bCount;
  }

  /** One row of labels (1, 0) over two by two pairs: the audit of its base passes on the labels (0, 2). */
  method ForeignBytes<V(0,==)>(v: V) returns (base: Option<Base<V>>, passed: bool)
    ensures base.Some? && IsBase(base.value, [1], [0], [v]) && base.value.aCount == base.value.bCount == 2
    ensures passed && !LabelsInDomain([0], [2], 2, 2) && Bytes([0]) && Bytes([2])
  {
    hide IsLayout, IsBase, WrappedPairs;
    base := BuildBase([1], [0], [v], 2, 2);
    ForeignLabelsPass(base.value, [1], [0], [v], 0);
    assert [1][0 := 0] == [0] && [0][0 := 2] == [2];
    passed := AuditBase(base.value, 1, [0], [2], [v]);
    assert [2][0] == 2;
  }

  lemma OneRowDown(bCount: nat, a: nat, b: nat)
    requires a > 0
    ensures PairIndex(bCount, a - 1, b + bCount) == PairIndex(bCount, a, b)
  {
  }

  /** Builds and audits; the audit of a constructed base never fails. */
  method BuildBase<V(0,==)>(catA: seq<nat>, catB: seq<nat>, vectors: seq<V>, aCount: nat, bCount: nat)
    returns (result: Option<Base<V>>)
    ensures result.Some? <==>
      && aCount > 0 && bCount > 0 && aCount * bCount < UINT32_MAX && 0 < |vectors| <= UINT32_MAX
      && |catA| == |catB| == |vectors|
      && forall g :: 0 <= g < |catA| ==> catA[g] < aCount && catB[g] < bCount
    ensures result.Some? ==> IsBase(result.value, catA, catB, vectors)
    ensures result.Some? ==> result.value.aCount == aCount && result.value.bCount == bCount
  {
    if aCount == 0 || bCount == 0 || aCount * bCount >= UINT32_MAX || |vectors| == 0 || |vectors| > UINT32_MAX ||
       |catA| != |vectors| || |catB| != |vectors| ||
       exists g :: 0 <= g < |catA| && (catA[g] >= aCount || catB[g] >= bCount) {
      return None;
    }
    forall g | 0 <= g < |catA| ensures PairsOf(catA, catB, bCount)[g] < aCount * bCount {
      RowMajor(catA[g], aCount, bCount, catB[g]);
    }
    var layout := Build(PairsOf(catA, catB, bCount), aCount * bCount, vectors);
    var base := Base(layout, aCount, bCount);
    PairsDoNotWrap(catA, catB, aCount, bCount);
    var passed := AuditBase(base, |vectors|, catA, catB, vectors);
    if !passed {
      return None;
    }
    result := Some(base);
  }

  // --- Slices ---

  lemma PairSliceIsPair<V>(base: Base<V>, catA: seq<nat>, catB: seq<nat>, vectors: seq<V>, a: nat, b: nat, q: nat)
    requires IsBase(base, catA, catB, vectors) && a < base.aCount && b < base.bCount && q < |vectors|
    ensures PairIndex(base.bCount, a, b) + 1 < |base.layout.offsets|
    ensures var pair := PairIndex(base.bCount, a, b);
      base.layout.offsets[pair] <= q < base.layout.offsets[pair + 1]
      <==> catA[base.layout.posToGlobal[q]] == a && catB[base.layout.posToGlobal[q]] == b
  {
    var pair := PairIndex(base.bCount, a, b);
    RowMajor(a, base.aCount, base.bCount, b);
    SliceIsCells(base.layout, PairsOf(catA, catB, base.bCount), base.aCount * base.bCount, vectors, pair, pair + 1);
    var g := base.layout.posToGlobal[q];
    PairOrder(base.bCount, a, b, catA[g], catB[g]);
  }

  lemma ASliceHoldsA<V>(base: Base<V>, catA: seq<nat>, catB: seq<nat>, vectors: seq<V>, a: nat, q: nat)
    requires IsBase(base, catA, catB, vectors) && a < base.aCount && q < |vectors|
    ensures a * base.bCount <= (a + 1) * base.bCount < |base.layout.offsets|
    ensures base.layout.offsets[a * base.bCount] <= q < base.layout.offsets[(a + 1) * base.bCount]
       <==> catA[base.layout.posToGlobal[q]] == a
  {
    Grows(a, a + 1, base.bCount);
    Grows(a + 1, base.aCount, base.bCount);
    SliceIsCells(base.layout, PairsOf(catA, catB, base.bCount), base.aCount * base.bCount, vectors,
                 a * base.bCount, (a + 1) * base.bCount);
    var g := base.layout.posToGlobal[q];
    RowMajor(catA[g], a, base.bCount, catB[g]);
    RowMajor(catA[g], a + 1, base.bCount, catB[g]);
  }

  // --- Ranked search ---

  /** The hit of one row under an arbitrary distance function. */
  function HitAt<V>(l: Layout<V>, distance: V -> int, g: nat): Hit
    requires g < |l.globalToPos| && l.globalToPos[g] < |l.vectors|
  {
    Hit(distance(l.vectors[l.globalToPos[g]]), g)
  }

  ghost predicate KnownIds<V>(l: Layout<V>, ids: seq<nat>) {
    forall i :: 0 <= i < |ids| ==> ids[i] < |l.globalToPos| && l.globalToPos[ids[i]] < |l.vectors|
  }

  ghost function HitsAt<V>(l: Layout<V>, distance: V -> int, ids: seq<nat>): (hits: seq<Hit>)
    requires KnownIds(l, ids)
    ensures |hits| == |ids|
  {
    seq(|ids|, i requires 0 <= i < |ids| => HitAt(l, distance, ids[i]))
  }

  /** `ranked` is the sorted k least hits of the rows with p, each row once. */
  ghost predicate Ranks<V>(l: Layout<V>, distance: V -> int, rows: iset<nat>, k: nat, ranked: seq<Hit>) {
    exists ids: seq<nat> ::
      && KnownIds(l, ids) && NoRepeats(ids) && (forall g: nat :: g in ids <==> g in rows)
      && ranked == TopK(HitsAt(l, distance, ids), k)
  }

  lemma SameHits<V>(l: Layout<V>, distance: V -> int, s: seq<nat>, t: seq<nat>)
    requires KnownIds(l, s) && KnownIds(l, t) && multiset(s) == multiset(t)
    ensures multiset(HitsAt(l, distance, s)) == multiset(HitsAt(l, distance, t))
  {
    var f := (g: nat) =>
      if g < |l.globalToPos| && l.globalToPos[g] < |l.vectors| then HitAt(l, distance, g) else Hit(0, 0);
    MapContents(f, s, t);
    assert HitsAt(l, distance, s) == Map(f, s);
    assert HitsAt(l, distance, t) == Map(f, t);
  }

  /** The ranking of a set of rows is a single value. */
  lemma RankingIsUnique<V>(l: Layout<V>, distance: V -> int, rows: iset<nat>, k: nat, x: seq<Hit>, y: seq<Hit>)
    requires Ranks(l, distance, rows, k, x) && Ranks(l, distance, rows, k, y)
    ensures x == y
  {
    var s: seq<nat> :| KnownIds(l, s) && NoRepeats(s) && (forall g: nat :: g in s <==> g in rows) &&
      x == TopK(HitsAt(l, distance, s), k);
    var t: seq<nat> :| KnownIds(l, t) && NoRepeats(t) && (forall g: nat :: g in t <==> g in rows) &&
      y == TopK(HitsAt(l, distance, t), k);
    SameElements(s, t);
    SameHits(l, distance, s, t);
    TopKIgnoresOrder(HitsAt(l, distance, s), HitsAt(l, distance, t), k);
  }

  /** A ranking spelled out: rows of the set with their own distances, a smaller
      distance first and of equal distances the smaller id; no row left out is better. */
  lemma RankingMeans<V>(l: Layout<V>, distance: V -> int, rows: iset<nat>, k: nat, ranked: seq<Hit>)
    requires Ranks(l, distance, rows, k, ranked)
    ensures |ranked| <= k
    ensures forall h :: h in ranked ==>
      && 0 <= h.id < |l.globalToPos| && h.id in rows && l.globalToPos[h.id] < |l.vectors|
      && h.distance == distance(l.vectors[l.globalToPos[h.id]])
    ensures forall i, j :: 0 <= i < j < |ranked| ==>
      || ranked[i].distance < ranked[j].distance
      || (ranked[i].distance == ranked[j].distance && ranked[i].id < ranked[j].id)
    ensures forall g: nat :: g in rows ==> g < |l.globalToPos| && l.globalToPos[g] < |l.vectors|
    ensures forall g: nat :: g in rows && (forall h :: h in ranked ==> h.id != g) ==>
      var d := distance(l.vectors[l.globalToPos[g]]);
      && |ranked| == k
      && forall h :: h in ranked ==> d > h.distance || (d == h.distance && g > h.id)
  {
    hide TopK;
    var ids: seq<nat> :| KnownIds(l, ids) && NoRepeats(ids) && (forall g: nat :: g in ids <==> g in rows) &&
      ranked == TopK(HitsAt(l, distance, ids), k);
    var hits := HitsAt(l, distance, ids);
    TopKMeans(hits, k);
    forall h | h in ranked
      ensures 0 <= h.id < |l.globalToPos| && h.id in rows && l.globalToPos[h.id] < |l.vectors|
      ensures h.distance == distance(l.vectors[l.globalToPos[h.id]])
    {
      var i :| 0 <= i < |hits| && hits[i] == h;
      assert ids[i] in ids;
    }
    forall g: nat | g in rows && (forall h :: h in ranked ==> h.id != g)
      ensures |ranked| == k
      ensures forall h :: h in ranked ==>
        var d := distance(l.vectors[l.globalToPos[g]]); d > h.distance || (d == h.distance && g > h.id)
    {
      assert g in ids;
      var i :| 0 <= i < |ids| && ids[i] == g;
      assert hits[i] in hits && hits[i] !in ranked;
      NoRoom(hits, k, hits[i]);
    }
  }

  /** A hit is left out only of a full ranking. */
  lemma NoRoom(hits: seq<Hit>, k: nat, h: Hit)
    requires h in hits && h !in TopK(hits, k)
    ensures |TopK(hits, k)| == k
  {
    SortContents(hits);
    SortLength(hits);
    assert h in multiset(hits);
    assert h in Sort(hits);
  }

  /** Ids of valid extents: both maps are inverse on [0, rows). */
  ghost predicate Usable<V>(l: Layout<V>, rows: nat) {
    |l.posToGlobal| == |l.globalToPos| == |l.vectors| == rows && Inverse(l, rows)
  }

  datatype IdSpace = GlobalId | PhysicalPosition

  /** A slice as its caller passes it, tagged with what its bounds count. */
  datatype PhysicalSlice = PhysicalSlice(begin: nat, end: nat, space: IdSpace)

  datatype Segment = Segment(begin: nat, end: nat)

  function SegmentsOf(slices: seq<PhysicalSlice>): (segments: seq<Segment>)
    ensures |segments| == |slices|
  {
    seq(|slices|, i requires 0 <= i < |slices| => Segment(slices[i].begin, slices[i].end))
  }

  ghost predicate SlicesValid(slices: seq<PhysicalSlice>, rows: nat) {
    (forall x :: x in slices ==> x.space == PhysicalPosition) && SegmentsValid(SegmentsOf(slices), rows)
  }

  predicate SegmentLess(x: Segment, y: Segment) {
    x.begin < y.begin || (x.begin == y.begin && x.end < y.end)
  }

  /** Sorted by (begin, end) with identical segments kept once. */
  ghost predicate Distinct(s: seq<Segment>) {
    forall i, j :: 0 <= i < j < |s| ==> SegmentLess(s[i], s[j])
  }

  function InsertSegment(x: Segment, s: seq<Segment>): (t: seq<Segment>)
    requires Distinct(s)
    ensures Distinct(t) && forall y :: y in t <==> y == x || y in s
  {
    if s == [] || SegmentLess(x, s[0]) then [x] + s
    else if x == s[0] then s
    else
      var rest := InsertSegment(x, s[1..]);
      assert forall i :: 0 <= i < |rest| ==> rest[i] in rest;
      assert s == [s[0]] + s[1..];
      [s[0]] + rest
  }

  /** sort, then erase identical neighbours. */
  function SortSegments(s: seq<Segment>): (t: seq<Segment>)
    ensures Distinct(t) && forall y :: y in t <==> y in s
  {
    if s == [] then [] else
      assert s == [s[0]] + s[1..];
      InsertSegment(s[0], SortSegments(s[1..]))
  }

  /** Extents in range, and different segments do not overlap. */
  ghost predicate SegmentsValid(segments: seq<Segment>, rows: nat) {
    && (forall x :: x in segments ==> x.begin <= x.end <= rows)
    && (forall x, y :: x in segments && y in segments && SegmentLess(x, y) ==> x.end <= y.begin)
  }

  ghost function RowsIn<V>(l: Layout<V>, segments: seq<Segment>): iset<nat> {
    iset g: nat | g < |l.globalToPos| && exists x :: x in segments && x.begin <= l.globalToPos[g] < x.end
  }

  /** Positions visited so far, and the queue fed with exactly their hits. */
  ghost predicate Searching<V>(queue: TopKQueue, l: Layout<V>, distance: V -> int, k: nat, ids: seq<nat>)
    reads queue, queue.heap
  {
    queue.Valid() && queue.k == k && KnownIds(l, ids) && NoRepeats(ids) && queue.seen == HitsAt(l, distance, ids)
  }

  method StartSearch<V>(l: Layout<V>, ghost distance: V -> int, k: nat) returns (queue: TopKQueue)
    ensures fresh(queue) && fresh(queue.heap) && Searching(queue, l, distance, k, [])
  {
    queue := new TopKQueue(k);
  }

  method Visit<V>(queue: TopKQueue, l: Layout<V>, distance: V -> int, ghost k: nat, ghost ids: seq<nat>,
                  position: nat, g: nat)
    requires k > 0 && Searching(queue, l, distance, k, ids) && g !in ids
    requires g < |l.globalToPos| && l.globalToPos[g] == position < |l.vectors|
    modifies queue, queue.heap
    ensures Searching(queue, l, distance, k, ids + [g])
  {
    hide TopKQueue.Valid;
    queue.Consider(Hit(distance(l.vectors[position]), g));
    assert HitsAt(l, distance, ids + [g]) == HitsAt(l, distance, ids) + [HitAt(l, distance, g)];
  }

  method FinishSearch<V>(queue: TopKQueue, l: Layout<V>, ghost distance: V -> int, ghost k: nat, ghost ids: seq<nat>,
                         ghost rows: iset<nat>) returns (ranked: seq<Hit>)
    requires Searching(queue, l, distance, k, ids) && forall g: nat :: g in ids <==> g in rows
    modifies queue, queue.heap
    ensures Ranks(l, distance, rows, k, ranked)
  {
    ranked := queue.Drain();
  }

  /** Adjacent order of sorted segments is pairwise order. */
  lemma {:induction false} AdjacentIsPairwise(s: seq<Segment>, i: nat, j: nat)
    requires Distinct(s) && i < j < |s| && (forall x :: x in s ==> x.begin <= x.end)
    requires forall m :: 0 < m < |s| ==> s[m - 1].end <= s[m].begin
    ensures s[i].end <= s[j].begin
  {
    if i < j - 1 {
      AdjacentIsPairwise(s, i, j - 1);
      assert s[j - 1] in s;
    }
  }

  lemma SortedSegmentsValid(segments: seq<Segment>, s: seq<Segment>, rows: nat)
    requires Distinct(s) && (forall y :: y in s <==> y in segments)
    requires forall x :: x in segments ==> x.begin <= x.end <= rows
    ensures SegmentsValid(segments, rows) <==> forall m :: 0 < m < |s| ==> s[m - 1].end <= s[m].begin
  {
    if forall m :: 0 < m < |s| ==> s[m - 1].end <= s[m].begin {
      forall x, y | x in segments && y in segments && SegmentLess(x, y) ensures x.end <= y.begin {
        var i :| 0 <= i < |s| && s[i] == x;
        var j :| 0 <= j < |s| && s[j] == y;
        AdjacentIsPairwise(s, i, j);
      }
    } else {
      var m :| 0 < m < |s| && !(s[m - 1].end <= s[m].begin);
      assert SegmentLess(s[m - 1], s[m]) && s[m - 1] in s && s[m] in s;
    }
  }

  /** Ids of the positions covered by the first `part` sorted segments. */
  ghost predicate CoversParts<V>(l: Layout<V>, s: seq<Segment>, part: nat, ids: seq<nat>) {
    part <= |s| && forall g: nat :: g in ids <==>
      g < |l.globalToPos| && exists i :: 0 <= i < part && s[i].begin <= l.globalToPos[g] < s[i].end
  }

  method SearchSegment<V>(queue: TopKQueue, l: Layout<V>, distance: V -> int, ghost k: nat, ghost before: seq<nat>,
                          segment: Segment) returns (ghost ids: seq<nat>)
    requires k > 0 && Searching(queue, l, distance, k, before) && Usable(l, |l.vectors|)
    requires segment.begin <= segment.end <= |l.vectors|
    requires forall g :: g in before ==> l.globalToPos[g] < segment.begin
    modifies queue, queue.heap
    ensures Searching(queue, l, distance, k, ids)
    ensures forall g: nat ::
      g in ids <==> g in before || (g < |l.globalToPos| && segment.begin <= l.globalToPos[g] < segment.end)
  {
    hide Searching;
    ids := before;
    KnownBefore(queue, l, distance, k, before);
    for position := segment.begin to segment.end
      invariant Searching(queue, l, distance, k, ids)
      invariant forall g: nat ::
        g in ids <==> g in before || (g < |l.globalToPos| && segment.begin <= l.globalToPos[g] < position)
    {
      var g := l.posToGlobal[position];
      assert g !in ids;
      Visit(queue, l, distance, k, ids, position, g);
      ids := ids + [g];
    }
  }

  lemma KnownBefore<V>(queue: TopKQueue, l: Layout<V>, distance: V -> int, k: nat, ids: seq<nat>)
    requires Searching(queue, l, distance, k, ids)
    ensures forall g :: g in ids ==> g < |l.globalToPos|
  {
  }

  /** exact_top_k_segments: repeated segments count once; overlapping ones, ones
      outside the base and ones in the wrong id space are refused. */
  method ExactTopKSegments<V>(l: Layout<V>, slices: seq<PhysicalSlice>, k: nat, distance: V -> int)
    returns (result: Option<seq<Hit>>)
    requires Usable(l, |l.vectors|)
    ensures k == 0 ==> result == Some([])
    ensures k > 0 ==> (result.Some? <==> SlicesValid(slices, |l.vectors|))
    ensures k > 0 && result.Some? ==> Ranks(l, distance, RowsIn(l, SegmentsOf(slices)), k, result.value)
  {
    if k == 0 {
      return Some([]);
    }
    if exists x :: x in slices && x.space != PhysicalPosition {
      return None;
    }
    var segments := SegmentsOf(slices);
    if exists x :: x in segments && !(x.begin <= x.end <= |l.vectors|) {
      return None;
    }
    var s := SortSegments(segments);
    SortedSegmentsValid(segments, s, |l.vectors|);
    if exists m :: 0 < m < |s| && !(s[m - 1].end <= s[m].begin) {
      return None;
    }
    hide Searching, Ranks, CoversParts, Distinct, Usable;
    var queue := StartSearch(l, distance, k);
    ghost var ids: seq<nat> := [];
    CoversNone(l, s);
    for part := 0 to |s|
      invariant fresh(queue) && fresh(queue.heap) && Searching(queue, l, distance, k, ids)
      invariant CoversParts(l, s, part, ids)
    {
      assert s[part] in s;
      EarlierParts(l, s, part, ids);
      ghost var before := ids;
      ids := SearchSegment(queue, l, distance, k, ids, s[part]);
      CoversNext(l, s, part, before, ids);
    }
    CoversAll(l, segments, s, ids);
    var ranked := FinishSearch(queue, l, distance, k, ids, RowsIn(l, segments));
    result := Some(ranked);
  }

  /** That answer spelled out: rows inside the slices with their own distances, a
      smaller distance first and of equal distances the smaller id; a row inside a
      slice is left out only when k others are better. */
  lemma SlicesRanked<V>(l: Layout<V>, slices: seq<PhysicalSlice>, distance: V -> int, k: nat, ranked: seq<Hit>)
    requires Ranks(l, distance, RowsIn(l, SegmentsOf(slices)), k, ranked)
    ensures |ranked| <= k
    ensures forall h :: h in ranked ==>
      && 0 <= h.id < |l.globalToPos| && l.globalToPos[h.id] < |l.vectors|
      && (exists x :: x in slices && x.begin <= l.globalToPos[h.id] < x.end)
      && h.distance == distance(l.vectors[l.globalToPos[h.id]])
    ensures forall i, j :: 0 <= i < j < |ranked| ==>
      || ranked[i].distance < ranked[j].distance
      || (ranked[i].distance == ranked[j].distance && ranked[i].id < ranked[j].id)
    ensures forall g: nat, x ::
      && g < |l.globalToPos| && l.globalToPos[g] < |l.vectors| && x in slices && x.begin <= l.globalToPos[g] < x.end
      && (forall h :: h in ranked ==> h.id != g)
      ==> |ranked| == k && forall h :: h in ranked ==>
            var d := distance(l.vectors[l.globalToPos[g]]); d > h.distance || (d == h.distance && g > h.id)
  {
    hide Ranks;
    var rows := RowsIn(l, SegmentsOf(slices));
    RankingMeans(l, distance, rows, k, ranked);
    forall h | h in ranked ensures exists x :: x in slices && x.begin <= l.globalToPos[h.id] < x.end {
      var y :| y in SegmentsOf(slices) && y.begin <= l.globalToPos[h.id] < y.end;
      var i :| 0 <= i < |slices| && SegmentsOf(slices)[i] == y;
      assert slices[i] in slices;
    }
    forall g: nat, x | g < |l.globalToPos| && x in slices && x.begin <= l.globalToPos[g] < x.end ensures g in rows {
      var i :| 0 <= i < |slices| && slices[i] == x;
      assert SegmentsOf(slices)[i] in SegmentsOf(slices);
    }
  }

  lemma CoversNone<V>(l: Layout<V>, s: seq<Segment>)
    ensures CoversParts(l, s, 0, [])
  {
  }

  lemma EarlierParts<V>(l: Layout<V>, s: seq<Segment>, part: nat, ids: seq<nat>)
    requires part < |s| && CoversParts(l, s, part, ids) && Distinct(s) && (forall x :: x in s ==> x.begin <= x.end)
    requires forall m :: 0 < m < |s| ==> s[m - 1].end <= s[m].begin
    ensures forall g :: g in ids ==> g < |l.globalToPos| && l.globalToPos[g] < s[part].begin
  {
    forall g | g in ids ensures l.globalToPos[g] < s[part].begin {
      var i :| 0 <= i < part && s[i].begin <= l.globalToPos[g] < s[i].end;
      AdjacentIsPairwise(s, i, part);
    }
  }

  lemma CoversNext<V>(l: Layout<V>, s: seq<Segment>, part: nat, before: seq<nat>, ids: seq<nat>)
    requires part < |s| && CoversParts(l, s, part, before)
    requires forall g: nat ::
      g in ids <==> g in before || (g < |l.globalToPos| && s[part].begin <= l.globalToPos[g] < s[part].end)
    ensures CoversParts(l, s, part + 1, ids)
  {
    forall g: nat
      ensures g in ids <==>
        g < |l.globalToPos| && exists i :: 0 <= i < part + 1 && s[i].begin <= l.globalToPos[g] < s[i].end
    {
      if g < |l.globalToPos| && exists i :: 0 <= i < part + 1 && s[i].begin <= l.globalToPos[g] < s[i].end {
        var i :| 0 <= i < part + 1 && s[i].begin <= l.globalToPos[g] < s[i].end;
        assert i < part || i == part;
      }
    }
  }

  lemma CoversAll<V>(l: Layout<V>, segments: seq<Segment>, s: seq<Segment>, ids: seq<nat>)
    requires (forall y :: y in s <==> y in segments) && CoversParts(l, s, |s|, ids)
    ensures forall g: nat :: g in ids <==> g in RowsIn(l, segments)
  {
    forall g: nat ensures g in ids <==> g in RowsIn(l, segments) {
      if g in RowsIn(l, segments) {
        var x :| x in segments && x.begin <= l.globalToPos[g] < x.end;
        var i :| 0 <= i < |s| && s[i] == x;
      }
    }
  }
}

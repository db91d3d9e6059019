// Query execution over fragments: each fragment is ranked on its own and the
// partial rankings are merged.  Merging loses nothing.

module FragmentQuery {
  import opened Options
  import opened Ranking
  import opened DistanceKernels
  import opened IdSort
  import opened TopKScan
  import opened Supports

  // --- Least sets of hits ---

  function HitSet(hits: seq<Hit>): set<Hit> {
    set h | h in hits
  }

  /** `kept` is the set of k least hits of `all`. */
  ghost predicate Least(kept: set<Hit>, all: set<Hit>, k: nat) {
    && kept <= all && |kept| == Min(k, |all|)
    && forall x, y :: x in kept && y in all - kept ==> AtMost(x, y)
  }

  lemma {:induction false} SetSize(hits: seq<Hit>)
    requires NoRepeats(hits)
    ensures |HitSet(hits)| == |hits|
  {
    if hits != [] {
      SetSize(hits[1..]);
      assert hits == [hits[0]] + hits[1..];
      assert HitSet(hits) == {hits[0]} + HitSet(hits[1..]);
    }
  }

  lemma TopKIsLeast(hits: seq<Hit>, k: nat)
    requires NoRepeats(hits)
    ensures NoRepeats(TopK(hits, k)) && Least(HitSet(TopK(hits, k)), HitSet(hits), k)
  {
    var top := TopK(hits, k);
    TopKKeeps(hits, k);
    SortContents(hits);
    SortLength(hits);
    NoRepeatsByContents(hits, Sort(hits));
    SetSize(hits);
    SetSize(top);
    forall x, y | x in HitSet(top) && y in HitSet(hits) - HitSet(top) ensures AtMost(x, y) {
      CountedOnce(hits, y);
      assert multiset(top)[y] == 0;
      assert y in multiset(hits) - multiset(top);
    }
    forall x | x in top ensures x in hits {
      assert x in multiset(top);
    }
  }

  lemma LeastIsUnique(a: set<Hit>, b: set<Hit>, all: set<Hit>, k: nat)
    requires Least(a, all, k) && Least(b, all, k)
    ensures a == b
  {
    if a != b {
      SetNotInside(a, b);
      SetNotInside(b, a);
      var x :| x in a && x !in b;
      var y :| y in b && y !in a;
      LeftOut(b, all, k, x);
      LeftOut(a, all, k, y);
    }
  }

  lemma LeftOut(b: set<Hit>, all: set<Hit>, k: nat, x: Hit)
    requires Least(b, all, k) && x in all && x !in b
    ensures forall y :: y in b ==> AtMost(y, x)
  {
  }

  lemma SetNotInside(a: set<Hit>, b: set<Hit>)
    requires |a| == |b| && a != b
    ensures exists x :: x in a && x !in b
  {
    if a <= b {
      SubsetIsAll(a, b);
    }
  }

  lemma SubsetIsAll(a: set<Hit>, b: set<Hit>)
    requires a <= b && |a| == |b|
    ensures a == b
  {
    assert |b - a| == |b| - |a|;
    assert b == a + (b - a);
  }

  ghost function Union(parts: seq<set<Hit>>): set<Hit> {
    if parts == [] then {} else parts[0] + Union(parts[1..])
  }

  lemma {:induction false} InUnion(parts: seq<set<Hit>>, x: Hit)
    ensures x in Union(parts) <==> exists i :: 0 <= i < |parts| && x in parts[i]
  {
    if parts != [] {
      InUnion(parts[1..], x);
      assert forall i :: 1 <= i < |parts| ==> parts[1..][i - 1] == parts[i];
      if exists i :: 0 <= i < |parts[1..]| && x in parts[1..][i] {
        var i :| 0 <= i < |parts[1..]| && x in parts[1..][i];
        assert x in parts[i + 1];
      }
    }
  }

  /** The k least of the partial k leasts are the k least of everything. */
  lemma MergeLeast(kept: set<Hit>, tops: seq<set<Hit>>, parts: seq<set<Hit>>, k: nat)
    requires |tops| == |parts| > 0
    requires forall i :: 0 <= i < |parts| ==> Least(tops[i], parts[i], k) && |parts[i]| >= k
    requires Least(kept, Union(tops), k)
    ensures Least(kept, Union(parts), k)
  {
    forall x | x in Union(tops) ensures x in Union(parts) {
      InUnion(tops, x);
      InUnion(parts, x);
    }
    PartInUnion(tops, 0);
    PartInUnion(parts, 0);
    forall x, y | x in kept && y in Union(parts) - kept ensures AtMost(x, y) {
      if y !in Union(tops) {
        InUnion(parts, y);
        var i :| 0 <= i < |parts| && y in parts[i];
        PartInUnion(tops, i);
        if x !in tops[i] {
          SetNotInside(tops[i], kept);
          var t :| t in tops[i] && t !in kept;
          assert AtMost(x, t) && AtMost(t, y);
        }
      }
    }
  }

  lemma PartInUnion(parts: seq<set<Hit>>, i: nat)
    requires i < |parts|
    ensures parts[i] <= Union(parts) && |parts[i]| <= |Union(parts)|
  {
    forall x | x in parts[i] ensures x in Union(parts) {
      InUnion(parts, x);
    }
    assert |Union(parts) - parts[i]| == |Union(parts)| - |parts[i]|;
  }

  // --- Scans ---

  /** The vectors of a list of ids, copied side by side. */
  ghost predicate PacksRows(d: Data, ids: seq<nat>, rows: seq<Vector>) {
    InData(d, ids) && |rows| == |ids| && forall i :: 0 <= i < |ids| ==> rows[i] == d.vectors[ids[i]]
  }

  ghost predicate MayPack(d: Data, ids: seq<nat>, packed: Option<seq<Vector>>) {
    packed.Some? ==> PacksRows(d, ids, packed.value)
  }

  /** scan(): every id offered to the queue, its vector taken from the packed
      copy if there is one, then drained in rank order. */
  method Scan(d: Data, query: Vector, ids: seq<nat>, packed: Option<seq<Vector>>, k: nat)
    returns (result: Option<seq<int>>)
    requires InData(d, ids) && MayPack(d, ids, packed) && k > 0
    ensures result == ExactOver(d, query, ids, k)
  {
    hide TopKQueue.Valid, Hits;
    if |ids| < k {
      return None;
    }
    ghost var rows := RowsOf(d, ids);
    var queue := new TopKQueue(k);
    assert Hits(query, rows[..0]) == [] by { NoHits(query, rows[..0]); }
    for i := 0 to |ids|
      invariant fresh(queue) && fresh(queue.heap) && queue.Valid() && queue.k == k
      invariant queue.seen == Hits(query, rows[..i])
    {
      var distance := OneDistance(query, if packed.Some? then packed.value[i] else d.vectors[ids[i]]);
      assert rows[..i + 1] == rows[..i] + [rows[i]];
      HitsAppend(query, rows[..i], rows[i]);
      queue.Consider(Hit(distance, ids[i]));
    }
    assert rows[..|ids|] == rows;
    var ranked := queue.Drain();
    result := Some(Ids(ranked));
  }

  lemma NoHits(query: Vector, rows: seq<Candidate>)
    requires rows == []
    ensures Hits(query, rows) == []
  {
  }

  /** x3_scalar_top10: scalar distances, one sort. */
  method ScalarTopK(d: Data, query: Vector, ids: seq<nat>, k: nat) returns (result: Option<seq<int>>)
    requires InData(d, ids)
    ensures result == ExactOver(d, query, ids, k)
  {
    if |ids| < k {
      return None;
    }
    ghost var rows := RowsOf(d, ids);
    var hits: seq<Hit> := [];
    for i := 0 to |ids|
      invariant hits == Hits(query, rows[..i])
    {
      var distance := ScalarDistance(query, d.vectors[ids[i]]);
      Unwrapped(query, d.vectors[ids[i]]);
      assert rows[..i + 1] == rows[..i] + [rows[i]];
      HitsAppend(query, rows[..i], rows[i]);
      hits := hits + [Hit(distance, ids[i])];
    }
    assert rows[..|ids|] == rows;
    result := Some(Ids(TopK(hits, k)));
  }

  /** The two-pointer intersection behind a pair that is not stored. */
  method Intersect(left: seq<nat>, right: seq<nat>) returns (ids: seq<nat>)
    requires Ascending(left) && Ascending(right)
    ensures Ascending(ids) && forall g: nat :: g in ids <==> g in left && g in right
  {
    ids := [];
    var i, j := 0, 0;
    while i < |left| && j < |right|
      invariant i <= |left| && j <= |right| && Ascending(ids)
      invariant forall g: nat :: g in ids <==> g in left[..i] && g in right[..j]
      invariant forall g :: g in ids ==> (i < |left| ==> g < left[i]) && (j < |right| ==> g < right[j])
      invariant forall x :: 0 <= x < i && j < |right| ==> left[x] < right[j]
      invariant forall y :: 0 <= y < j && i < |left| ==> right[y] < left[i]
      decreases |left| - i + |right| - j
    {
      assert left[..i + 1] == left[..i] + [left[i]] && right[..j + 1] == right[..j] + [right[j]];
      if left[i] < right[j] {
        i := i + 1;
      } else if right[j] < left[i] {
        j := j + 1;
      } else {
        assert forall x :: 0 <= x < |ids| ==> ids[x] in ids;
        ids := ids + [left[i]];
        i, j := i + 1, j + 1;
      }
    }
    assert left == left[..i] + left[i..] && right == right[..j] + right[j..];
  }

  // --- Merging ---

  ghost function HitsFor(d: Data, query: Vector, ids: seq<nat>): (hits: seq<Hit>)
    requires InData(d, ids)
    ensures |hits| == |ids|
    ensures forall i :: 0 <= i < |ids| ==> hits[i] == Hit(SquaredL2(query, d.vectors[ids[i]]), ids[i])
  {
    Hits(query, RowsOf(d, ids))
  }

  ghost predicate Fragments(d: Data, supports: seq<seq<nat>>, k: nat) {
    forall i :: 0 <= i < |supports| ==> InData(d, supports[i]) && NoRepeats(supports[i]) && |supports[i]| >= k
  }

  /** Each part is the exact ranking of its support. */
  ghost predicate PartsExact(d: Data, query: Vector, supports: seq<seq<nat>>, parts: seq<seq<int>>, k: nat)
    requires Fragments(d, supports, k)
  {
    |parts| == |supports| &&
    forall i :: 0 <= i < |supports| ==> parts[i] == Ids(TopK(HitsFor(d, query, supports[i]), k))
  }

  ghost predicate Holds(ids: seq<nat>, supports: seq<seq<nat>>) {
    forall g: nat :: g in ids <==> exists i :: 0 <= i < |supports| && g in supports[i]
  }

  /** A hit belongs to a list exactly when it is the hit of a listed id. */
  lemma HitOfId(d: Data, query: Vector, ids: seq<nat>, x: Hit)
    requires InData(d, ids)
    ensures x in HitsFor(d, query, ids) <==>
      0 <= x.id < |d.vectors| && x.id in ids && x == Hit(SquaredL2(query, d.vectors[x.id]), x.id)
  {
    var hits := HitsFor(d, query, ids);
    if x in hits {
      var i :| 0 <= i < |hits| && hits[i] == x;
    }
    if 0 <= x.id < |d.vectors| && x.id in ids && x == Hit(SquaredL2(query, d.vectors[x.id]), x.id) {
      var i :| 0 <= i < |ids| && ids[i] == x.id;
      assert hits[i] == x;
    }
  }

  /** A ranking lists ids of its support, each with its own hit. */
  lemma RankedFrom(d: Data, query: Vector, ids: seq<nat>, k: nat)
    requires InData(d, ids)
    ensures var top := TopK(HitsFor(d, query, ids), k);
      forall i :: 0 <= i < |top| ==>
        0 <= top[i].id < |d.vectors| && top[i].id in ids &&
          top[i] == Hit(SquaredL2(query, d.vectors[top[i].id]), top[i].id)
  {
    var hits := HitsFor(d, query, ids);
    var top := TopK(hits, k);
    TopKKeeps(hits, k);
    forall i | 0 <= i < |top|
      ensures 0 <= top[i].id < |d.vectors| && top[i].id in ids &&
        top[i] == Hit(SquaredL2(query, d.vectors[top[i].id]), top[i].id)
    {
      assert top[i] in multiset(top) && top[i] in multiset(hits);
      var j :| 0 <= j < |hits| && hits[j] == top[i];
      assert hits[j].id == ids[j];
    }
  }

  ghost function TopSets(d: Data, query: Vector, supports: seq<seq<nat>>, k: nat): (tops: seq<set<Hit>>)
    requires Fragments(d, supports, k)
    ensures |tops| == |supports|
  {
    seq(|supports|, i requires 0 <= i < |supports| => HitSet(TopK(HitsFor(d, query, supports[i]), k)))
  }

  ghost function AllSets(d: Data, query: Vector, supports: seq<seq<nat>>, k: nat): (all: seq<set<Hit>>)
    requires Fragments(d, supports, k)
    ensures |all| == |supports|
  {
    seq(|supports|, i requires 0 <= i < |supports| => HitSet(HitsFor(d, query, supports[i])))
  }

  /** Hits of a list that holds all supports are the union of their hits. */
  lemma HitsAreUnion(d: Data, query: Vector, supports: seq<seq<nat>>, k: nat, ids: seq<nat>)
    requires Fragments(d, supports, k) && InData(d, ids) && Holds(ids, supports)
    ensures HitSet(HitsFor(d, query, ids)) == Union(AllSets(d, query, supports, k))
  {
    forall x: Hit ensures x in HitSet(HitsFor(d, query, ids)) <==> x in Union(AllSets(d, query, supports, k)) {
      InUnion(AllSets(d, query, supports, k), x);
      HitOfId(d, query, ids, x);
      forall i | 0 <= i < |supports|
        ensures x in AllSets(d, query, supports, k)[i] <==>
          0 <= x.id < |d.vectors| && x.id in supports[i] && x == Hit(SquaredL2(query, d.vectors[x.id]), x.id)
      {
        HitOfId(d, query, supports[i], x);
      }
    }
  }

  /** Hits of a list that holds all partial rankings are the union of their hits. */
  lemma RankedAreUnion(d: Data, query: Vector, supports: seq<seq<nat>>, parts: seq<seq<int>>, k: nat, ids: seq<nat>)
    requires Fragments(d, supports, k) && PartsExact(d, query, supports, parts, k) && InData(d, ids)
    requires forall g: nat :: g in ids <==> exists i :: 0 <= i < |parts| && g in parts[i]
    ensures HitSet(HitsFor(d, query, ids)) == Union(TopSets(d, query, supports, k))
  {
    forall i | 0 <= i < |supports|
      ensures forall x: Hit :: x in TopSets(d, query, supports, k)[i] <==>
        0 <= x.id < |d.vectors| && x.id in parts[i] && x == Hit(SquaredL2(query, d.vectors[x.id]), x.id)
    {
      RankedFrom(d, query, supports[i], k);
      var top := TopK(HitsFor(d, query, supports[i]), k);
      assert forall j :: 0 <= j < |top| ==> parts[i][j] == top[j].id;
      forall x: Hit | 0 <= x.id < |d.vectors| && x.id in parts[i] && x == Hit(SquaredL2(query, d.vectors[x.id]), x.id)
        ensures x in top
      {
        var j :| 0 <= j < |parts[i]| && parts[i][j] == x.id;
        assert top[j] == x;
      }
    }
    forall x: Hit ensures x in HitSet(HitsFor(d, query, ids)) <==> x in Union(TopSets(d, query, supports, k)) {
      InUnion(TopSets(d, query, supports, k), x);
      HitOfId(d, query, ids, x);
    }
  }

  lemma DistinctHits(d: Data, query: Vector, ids: seq<nat>)
    requires InData(d, ids) && NoRepeats(ids)
    ensures NoRepeats(HitsFor(d, query, ids))
  {
  }

  /** Rankings with the same hits are the same ranking. */
  lemma SameTop(s: seq<Hit>, t: seq<Hit>, k: nat)
    requires NoRepeats(s) && NoRepeats(t) && HitSet(TopK(s, k)) == HitSet(TopK(t, k))
    ensures TopK(s, k) == TopK(t, k)
  {
    TopKIsLeast(s, k);
    TopKIsLeast(t, k);
    TopKKeeps(s, k);
    TopKKeeps(t, k);
    forall x ensures x in TopK(s, k) <==> x in TopK(t, k) {
      assert x in HitSet(TopK(s, k)) <==> x in HitSet(TopK(t, k));
    }
    SameElements(TopK(s, k), TopK(t, k));
    SortedIsUnique(TopK(s, k), TopK(t, k));
  }

  /** Ranking the merged partial rankings is ranking the union of the supports. */
  lemma MergeIsExact(d: Data, query: Vector, supports: seq<seq<nat>>, parts: seq<seq<int>>, k: nat,
                     merged: seq<nat>, all: seq<nat>)
    requires supports != [] && Fragments(d, supports, k) && PartsExact(d, query, supports, parts, k)
    requires InData(d, merged) && NoRepeats(merged)
    requires forall g: nat :: g in merged <==> exists i :: 0 <= i < |parts| && g in parts[i]
    requires InData(d, all) && NoRepeats(all) && Holds(all, supports)
    ensures TopK(HitsFor(d, query, merged), k) == TopK(HitsFor(d, query, all), k)
    ensures |merged| >= k && |all| >= k
  {
    var tops, sets := TopSets(d, query, supports, k), AllSets(d, query, supports, k);
    forall i | 0 <= i < |supports| ensures Least(tops[i], sets[i], k) && |sets[i]| >= k {
      DistinctHits(d, query, supports[i]);
      TopKIsLeast(HitsFor(d, query, supports[i]), k);
      SetSize(HitsFor(d, query, supports[i]));
    }
    var m, a := HitsFor(d, query, merged), HitsFor(d, query, all);
    DistinctHits(d, query, merged);
    DistinctHits(d, query, all);
    RankedAreUnion(d, query, supports, parts, k, merged);
    HitsAreUnion(d, query, supports, k, all);
    TopKIsLeast(m, k);
    TopKIsLeast(a, k);
    MergeLeast(HitSet(TopK(m, k)), tops, sets, k);
    LeastIsUnique(HitSet(TopK(m, k)), HitSet(TopK(a, k)), HitSet(a), k);
    SameTop(m, a, k);
    PartInUnion(tops, 0);
    PartInUnion(sets, 0);
    SetSize(m);
    SetSize(a);
  }

  /** merge_results: the ids of all parts, once each, ranked again. */
  method MergeResults(d: Data, query: Vector, ghost supports: seq<seq<nat>>, parts: seq<seq<int>>, k: nat,
                      ghost all: seq<nat>)
    returns (result: Option<seq<int>>)
    requires k > 0 && supports != [] && Fragments(d, supports, k) && PartsExact(d, query, supports, parts, k)
    requires InData(d, all) && NoRepeats(all) && Holds(all, supports)
    ensures result == ExactOver(d, query, all, k) && result.Some?
  {
    var merged: seq<nat> := [];
    for p := 0 to |parts|
      invariant Ascending(merged)
      invariant forall g: nat :: g in merged <==> exists i :: 0 <= i < p && g in parts[i]
    {
      RankedFrom(d, query, supports[p], k);
      assert forall j :: 0 <= j < |parts[p]| ==> parts[p][j] == TopK(HitsFor(d, query, supports[p]), k)[j].id;
      var ids: seq<nat> := parts[p];
      merged := SortUnique(merged + ids);
    }
    forall i | 0 <= i < |merged| ensures merged[i] < |d.vectors| {
      assert merged[i] in merged;
      var p :| 0 <= p < |parts| && merged[i] in parts[p];
      RankedFrom(d, query, supports[p], k);
      var j :| 0 <= j < |parts[p]| && parts[p][j] == merged[i];
      assert TopK(HitsFor(d, query, supports[p]), k)[j].id == merged[i];
    }
    MergeIsExact(d, query, supports, parts, k, merged, all);
    result := Scan(d, query, merged, None, k);
  }
}

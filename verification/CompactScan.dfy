// The two-phase range scan.  A seed of rows is scanned in full; after that each
// batch computes prefix distances against the threshold frozen at its start and
// completes only the survivors.

module CompactScan {
  import opened Options
  import opened Ranking
  import opened DistanceKernels
  import opened TopKScan

  datatype Survivor = Survivor(index: nat, partial: int)

  /** Row i of a scan that addresses vectors through an index. */
  function Gather(vectors: seq<Vector>, positions: seq<nat>, ids: seq<int>): (rows: seq<Candidate>)
    requires |positions| == |ids| && forall i :: 0 <= i < |positions| ==> positions[i] < |vectors|
    ensures |rows| == |ids|
  {
    seq(|ids|, i requires 0 <= i < |ids| => Candidate(vectors[positions[i]], ids[i]))
  }

  /** Rows of [i, j) whose prefix distance does not exceed the threshold. */
  function Survivors(query: Vector, rows: seq<Candidate>, i: nat, j: nat, threshold: int): seq<Survivor>
    requires i <= j <= |rows|
    decreases rows, j
  {
    if i == j then []
    else
      var before := Survivors(query, rows, i, j - 1, threshold);
      var partial := Half(query, rows[j - 1].vector, 0);
      if partial <= threshold then before + [Survivor(j - 1, partial)] else before
  }

  /** The other rows of [i, j), which the scan never completes. */
  ghost function Dropped(query: Vector, rows: seq<Candidate>, i: nat, j: nat, threshold: int): seq<Candidate>
    requires i <= j <= |rows|
    decreases rows, j
  {
    if i == j then []
    else
      var before := Dropped(query, rows, i, j - 1, threshold);
      if Half(query, rows[j - 1].vector, 0) <= threshold then before else before + [rows[j - 1]]
  }

  ghost predicate Indexes(survivors: seq<Survivor>, query: Vector, rows: seq<Candidate>) {
    forall s :: 0 <= s < |survivors| ==>
      survivors[s].index < |rows| && survivors[s].partial == Half(query, rows[survivors[s].index].vector, 0)
  }

  ghost function Completed(survivors: seq<Survivor>, query: Vector, rows: seq<Candidate>): (hits: seq<Hit>)
    requires Indexes(survivors, query, rows)
    ensures |hits| == |survivors|
  {
    seq(|survivors|, s requires 0 <= s < |survivors| => HitOf(query, rows[survivors[s].index]))
  }

  /** Survivors and dropped rows together are the whole batch. */
  lemma {:induction false} BatchSplits(query: Vector, rows: seq<Candidate>, i: nat, j: nat, threshold: int)
    requires i <= j <= |rows|
    ensures |Survivors(query, rows, i, j, threshold)| <= j - i
    ensures Indexes(Survivors(query, rows, i, j, threshold), query, rows)
    ensures multiset(Hits(query, rows[..j]))
         == multiset(Hits(query, rows[..i]))
          + multiset(Completed(Survivors(query, rows, i, j, threshold), query, rows))
          + multiset(Hits(query, Dropped(query, rows, i, j, threshold)))
    decreases j
  {
    if i < j {
      BatchSplits(query, rows, i, j - 1, threshold);
      var last := rows[j - 1];
      assert rows[..j] == rows[..j - 1] + [last];
      HitsAppend(query, rows[..j - 1], last);
      HitsAppend(query, Dropped(query, rows, i, j - 1, threshold), last);
      var before := Survivors(query, rows, i, j - 1, threshold);
      if Half(query, last.vector, 0) <= threshold {
        var now := before + [Survivor(j - 1, Half(query, last.vector, 0))];
        assert Completed(now, query, rows) == Completed(before, query, rows) + [HitOf(query, last)];
      }
    } else {
      assert Completed([], query, rows) == [] && Hits(query, []) == [];
    }
  }

  lemma {:induction false} DroppedAreFar(query: Vector, rows: seq<Candidate>, i: nat, j: nat, threshold: int)
    requires i <= j <= |rows|
    ensures forall c :: c in Dropped(query, rows, i, j, threshold) ==> HitOf(query, c).distance > threshold
    decreases j
  {
    if i < j {
      DroppedAreFar(query, rows, i, j - 1, threshold);
      PrefixPlusSuffix(query, rows[j - 1].vector);
    }
  }

  method Seed(query: Vector, rows: seq<Candidate>, seedRows: nat, top: TopKHeap)
    requires seedRows <= |rows|
    requires top.Valid() && top.seen == []
    modifies top, top.heap
    ensures top.Valid() && top.seen == Hits(query, rows[..seedRows])
  {
    hide TopKHeap.Valid, Hits;
    var index := 0;
    EmptyHits(query, rows[..0]);
    while index + 4 <= seedRows
      invariant 0 <= index <= seedRows
      invariant top.Valid() && top.seen == Hits(query, rows[..index])
    {
      var candidates := [rows[index].vector, rows[index + 1].vector, rows[index + 2].vector, rows[index + 3].vector];
      var first := HalfFour(query, 0, candidates);
      var second := HalfFour(query, 2, candidates);
      for lane := 0 to 4
        invariant top.Valid() && top.seen == Hits(query, rows[..index + lane])
      {
        PrefixPlusSuffix(query, rows[index + lane].vector);
        assert candidates[lane] == rows[index + lane].vector;
        TakeMore(query, rows, index + lane);
        top.Consider(Hit(first[lane] + second[lane], rows[index + lane].id));
      }
      index := index + 4;
    }
    while index < seedRows
      invariant 0 <= index <= seedRows
      invariant top.Valid() && top.seen == Hits(query, rows[..index])
    {
      var distance := OneDistance(query, rows[index].vector);
      TakeMore(query, rows, index);
      top.Consider(Hit(distance, rows[index].id));
      index := index + 1;
    }
  }

  lemma EmptyHits(query: Vector, rows: seq<Candidate>)
    requires rows == []
    ensures Hits(query, rows) == []
  {
  }

  lemma TakeMore(query: Vector, rows: seq<Candidate>, i: nat)
    requires i < |rows|
    ensures Hits(query, rows[..i + 1]) == Hits(query, rows[..i]) + [HitOf(query, rows[i])]
  {
    assert rows[..i + 1] == rows[..i] + [rows[i]];
  }

  /** First phase of a batch: prefix distances fill the survivor buffer. */
  method Prefix(query: Vector, rows: seq<Candidate>, begin: nat, end: nat, threshold: int, survivors: array<Survivor>)
    returns (count: nat)
    requires begin <= end <= |rows| && end - begin <= survivors.Length
    modifies survivors
    ensures count <= survivors.Length && survivors[..count] == Survivors(query, rows, begin, end, threshold)
  {
    count := 0;
    var index := begin;
    while index + 4 <= end
      invariant begin <= index <= end && count <= index - begin
      invariant survivors[..count] == Survivors(query, rows, begin, index, threshold)
    {
      var candidates := [rows[index].vector, rows[index + 1].vector, rows[index + 2].vector, rows[index + 3].vector];
      var partial := HalfFour(query, 0, candidates);
      for lane := 0 to 4
        invariant count <= index + lane - begin
        invariant survivors[..count] == Survivors(query, rows, begin, index + lane, threshold)
      {
        assert candidates[lane] == rows[index + lane].vector;
        if partial[lane] <= threshold {
          survivors[count] := Survivor(index + lane, partial[lane]);
          count := count + 1;
        }
      }
      index := index + 4;
    }
    while index < end
      invariant begin <= index <= end && count <= index - begin
      invariant survivors[..count] == Survivors(query, rows, begin, index, threshold)
    {
      var partial := HalfOne(query, 0, rows[index].vector);
      if partial <= threshold {
        survivors[count] := Survivor(index, partial);
        count := count + 1;
      }
      index := index + 1;
    }
  }

  method Complete(query: Vector, rows: seq<Candidate>, kept: Survivor, suffix: int, top: TopKHeap)
    requires kept.index < |rows| && kept.partial == Half(query, rows[kept.index].vector, 0)
    requires suffix == Half(query, rows[kept.index].vector, 2)
    requires top.Valid() && top.Full()
    modifies top, top.heap
    ensures top.Valid() && top.Full() && top.Threshold() <= old(top.Threshold())
    ensures top.seen == old(top.seen) + [HitOf(query, rows[kept.index])]
  {
    hide TopKHeap.Valid;
    PrefixPlusSuffix(query, rows[kept.index].vector);
    top.Consider(Hit(kept.partial + suffix, rows[kept.index].id));
  }

  /** Second phase: survivors get their suffix distance and compete. */
  method Suffix(query: Vector, rows: seq<Candidate>, survivors: seq<Survivor>, top: TopKHeap)
    requires Indexes(survivors, query, rows)
    requires top.Valid() && top.Full()
    modifies top, top.heap
    ensures top.Valid() && top.Full() && top.Threshold() <= old(top.Threshold())
    ensures top.seen == old(top.seen) + Completed(survivors, query, rows)
  {
    hide TopKHeap.Valid;
    ghost var hits := Completed(survivors, query, rows);
    var s := 0;
    while s + 4 <= |survivors|
      invariant 0 <= s <= |survivors|
      invariant top.Valid() && top.Full() && top.Threshold() <= old(top.Threshold())
      invariant top.seen == old(top.seen) + hits[..s]
    {
      var candidates := [rows[survivors[s].index].vector, rows[survivors[s + 1].index].vector,
                         rows[survivors[s + 2].index].vector, rows[survivors[s + 3].index].vector];
      var suffix := HalfFour(query, 2, candidates);
      for lane := 0 to 4
        invariant top.Valid() && top.Full() && top.Threshold() <= old(top.Threshold())
        invariant top.seen == old(top.seen) + hits[..s + lane]
      {
        assert candidates[lane] == rows[survivors[s + lane].index].vector;
        Complete(query, rows, survivors[s + lane], suffix[lane], top);
        assert hits[..s + lane + 1] == hits[..s + lane] + [hits[s + lane]];
      }
      s := s + 4;
    }
    while s < |survivors|
      invariant 0 <= s <= |survivors|
      invariant top.Valid() && top.Full() && top.Threshold() <= old(top.Threshold())
      invariant top.seen == old(top.seen) + hits[..s]
    {
      var suffix := HalfOne(query, 2, rows[survivors[s].index].vector);
      Complete(query, rows, survivors[s], suffix, top);
      assert hits[..s + 1] == hits[..s] + [hits[s]];
      s := s + 1;
    }
    assert hits[..s] == hits;
  }

  /** Rows beyond the threshold, counted as seen although never completed. */
  ghost method SkipAll(query: Vector, dropped: seq<Candidate>, top: TopKHeap)
    requires top.Valid() && top.Full()
    requires forall c :: c in dropped ==> HitOf(query, c).distance > top.Threshold()
    modifies top`seen
    ensures top.Valid() && top.Full() && top.seen == old(top.seen) + Hits(query, dropped)
  {
    hide TopKHeap.Valid, Hits;
    EmptyHits(query, dropped[..0]);
    for d := 0 to |dropped|
      invariant top.Valid() && top.Full() && top.Threshold() == old(top.Threshold())
      invariant top.seen == old(top.seen) + Hits(query, dropped[..d])
    {
      TakeMore(query, dropped, d);
      top.Skip(HitOf(query, dropped[d]));
    }
    assert dropped[..|dropped|] == dropped;
  }

  /** One batch: both phases against the threshold frozen at its start. */
  method Batch(query: Vector, rows: seq<Candidate>, begin: nat, end: nat, survivors: array<Survivor>, top: TopKHeap)
    requires begin <= end <= |rows| && end - begin <= survivors.Length
    requires top.Valid() && top.Full() && multiset(top.seen) == multiset(Hits(query, rows[..begin]))
    modifies survivors, top, top.heap
    ensures top.Valid() && top.Full() && multiset(top.seen) == multiset(Hits(query, rows[..end]))
  {
    hide TopKHeap.Valid, Hits, Completed;
    var threshold := top.Threshold();
    var count := Prefix(query, rows, begin, end, threshold, survivors);
    BatchSplits(query, rows, begin, end, threshold);
    Suffix(query, rows, survivors[..count], top);
    DroppedAreFar(query, rows, begin, end, threshold);
    SkipAll(query, Dropped(query, rows, begin, end, threshold), top);
  }

  /** The pruned scan answers exactly like a full sort, for every row count and
      every pattern of ties; fewer than k rows is an error. */
  method IndexedScan(query: Vector, vectors: seq<Vector>, positions: seq<nat>, ids: seq<int>,
                     k: nat, seedRows: nat, batchRows: nat)
    returns (result: Option<seq<int>>)
    requires |positions| == |ids| && forall i :: 0 <= i < |positions| ==> positions[i] < |vectors|
    requires 0 < k <= seedRows && batchRows > 0
    ensures result == Answer(Hits(query, Gather(vectors, positions, ids)), k)
  {
    hide TopKHeap.Valid, Hits;
    if |ids| < k {
      return None;
    }
    var rows := Gather(vectors, positions, ids);
    var top := new TopKHeap(k);
    var index := Min(seedRows, |rows|);
    Seed(query, rows, index, top);
    FullAfter(top);
    var survivors := new Survivor[batchRows](_ => Survivor(0, 0));
    while index < |rows|
      invariant 0 <= index <= |rows|
      invariant fresh(top) && fresh(top.heap) && fresh(survivors) && survivors.Length == batchRows
      invariant top.k == k && top.Valid() && top.Full() && multiset(top.seen) == multiset(Hits(query, rows[..index]))
    {
      var end := Min(|rows|, index + batchRows);
      Batch(query, rows, index, end, survivors, top);
      index := end;
    }
    assert rows[..index] == rows;
    TopKIgnoresOrder(top.seen, Hits(query, rows), k);
    SameSize(top.seen, Hits(query, rows));
    result := top.Finish();
  }

  lemma FullAfter(top: TopKHeap)
    requires top.Valid() && |top.seen| >= top.k
    ensures top.Full()
  {
  }

  lemma SameSize(s: seq<Hit>, t: seq<Hit>)
    requires multiset(s) == multiset(t)
    ensures |s| == |t|
  {
    assert |multiset(s)| == |s| && |multiset(t)| == |t|;
  }

  /** x3_compact_range_scan: the same scan over a contiguous run of rows. `rows`
      are the rows the answer names, place by place. */
  method RangeScan(query: Vector, vectors: seq<Vector>, ids: seq<int>, k: nat, seedRows: nat, batchRows: nat)
    returns (result: Option<seq<int>>, ghost rows: seq<nat>)
    requires |vectors| == |ids|
    requires 0 < k <= seedRows && batchRows > 0
    ensures result == Answer(Hits(query, seq(|ids|, i requires 0 <= i < |ids| => Candidate(vectors[i], ids[i]))), k)
    ensures result.None? <==> |ids| < k
    ensures result.Some? ==> |result.value| == |rows| == k
    ensures result.Some? ==> forall i :: 0 <= i < k ==> rows[i] < |ids| && result.value[i] == ids[rows[i]]
    ensures result.Some? ==> forall i, j :: 0 <= i < j < k ==>
      var x, y := SquaredL2(query, vectors[rows[i]]), SquaredL2(query, vectors[rows[j]]);
      rows[i] != rows[j] && (x < y || (x == y && ids[rows[i]] <= ids[rows[j]]))
    ensures result.Some? ==> forall i, r: nat :: 0 <= i < k && r < |ids| && r !in rows ==>
      var kept, left := SquaredL2(query, vectors[rows[i]]), SquaredL2(query, vectors[r]);
      left > kept || (left == kept && ids[r] >= ids[rows[i]])
  {
    var positions := seq(|ids|, i => i);
    result := IndexedScan(query, vectors, positions, ids, k, seedRows, batchRows);
    assert Gather(vectors, positions, ids) == seq(|ids|, i requires 0 <= i < |ids| => Candidate(vectors[i], ids[i]));
    hide Sort, Insert, TopK, AtMost;
    ghost var hits := Hits(query, Gather(vectors, positions, ids));
    assert forall i :: 0 <= i < |ids| ==> hits[i] == Hit(SquaredL2(query, vectors[i]), ids[i]);
    rows := TopKPicks(hits, k);
  }
}

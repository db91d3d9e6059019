// The four causal arms over one cube.  FULL, SUPPORT_OFF, LAYOUT_OFF and
// PLAN_OFF differ in which mechanism they use; all return the exact answer.

module CubePlans {
  import opened Options
  import opened DistanceKernels
  import opened TopKScan
  import opened CompactScan
  import opened CellLayout
  import opened Supports
  import opened PredicateCube

  /** The constants of the range scan: k, seed rows and batch rows. */
  datatype Tuning = Tuning(k: nat, seedRows: nat, batchRows: nat)

  predicate ValidTuning(t: Tuning) {
    0 < t.k <= t.seedRows && t.batchRows > 0
  }

  /** Segments in position order, not overlapping. */
  ghost predicate InOrder(segments: seq<Slice>, rows: nat) {
    && (forall i :: 0 <= i < |segments| ==> segments[i].begin <= segments[i].end <= rows)
    && (forall i, j :: 0 <= i < j < |segments| ==> segments[i].end <= segments[j].begin)
  }

  ghost predicate Inside(segments: seq<Slice>, q: nat) {
    exists i :: 0 <= i < |segments| && segments[i].begin <= q < segments[i].end
  }

  lemma InsideAppend(segments: seq<Slice>, s: Slice, q: nat)
    ensures Inside(segments + [s], q) <==> Inside(segments, q) || s.begin <= q < s.end
  {
    var more := segments + [s];
    if Inside(segments, q) {
      var i :| 0 <= i < |segments| && segments[i].begin <= q < segments[i].end;
      assert more[i] == segments[i];
    }
    assert more[|segments|] == s;
  }

  /** Collected segments end before the given cell and hold the matching rows
      of the first bins. */
  ghost predicate CoversBins(cube: Cube, d: Data, spec: Spec, segments: seq<Slice>, bins: nat)
    requires IsCube(cube, d) && bins <= d.schema.bins
  {
    && InOrder(segments, |d.vectors|)
    && EndBefore(cube, d, segments, BinStart(d.schema, bins))
    && forall q :: 0 <= q < |d.vectors| ==>
         (Inside(segments, q) <==> Matches(d, spec, cube.posToGlobal[q]) && d.bin[cube.posToGlobal[q]] < bins)
  }

  ghost predicate EndBefore(cube: Cube, d: Data, segments: seq<Slice>, cell: nat)
    requires IsCube(cube, d)
  {
    cell <= CellCount(d.schema) && forall i :: 0 <= i < |segments| ==> segments[i].end <= cube.offsets[cell]
  }

  lemma CubeExtents(cube: Cube, d: Data)
    requires IsCube(cube, d)
    ensures |cube.offsets| == CellCount(d.schema) + 1
    ensures |cube.posToGlobal| == |cube.globalToPos| == |cube.vectors| == |d.vectors|
    ensures forall q :: 0 <= q < |d.vectors| ==> cube.posToGlobal[q] < |d.vectors|
  {
  }

  function BinStart(s: Schema, bin: nat): nat {
    bin * (s.aCount * s.bCount)
  }

  lemma AppendSlice(cube: Cube, d: Data, segments: seq<Slice>, bound: nat, cell: nat, end: nat)
    requires IsCube(cube, d) && InOrder(segments, |d.vectors|) && EndBefore(cube, d, segments, bound)
    requires bound <= cell <= end <= CellCount(d.schema)
    ensures var slice := Slice(cube.offsets[cell], cube.offsets[end]);
      InOrder(segments + [slice], |d.vectors|) && EndBefore(cube, d, segments + [slice], end)
  {
    SliceIsCells(cube, CellsOf(d), CellCount(d.schema), d.vectors, bound, cell);
    SliceIsCells(cube, CellsOf(d), CellCount(d.schema), d.vectors, cell, end);
  }

  lemma LaterEnd(cube: Cube, d: Data, segments: seq<Slice>, bound: nat, cell: nat)
    requires IsCube(cube, d) && EndBefore(cube, d, segments, bound) && bound <= cell <= CellCount(d.schema)
    ensures EndBefore(cube, d, segments, cell)
  {
    SliceIsCells(cube, CellsOf(d), CellCount(d.schema), d.vectors, bound, cell);
  }

  /** The cells of one bin lie between its start and the next bin's start. */
  lemma InsideBin(s: Schema, bin: nat, a: nat, b: nat)
    requires bin < s.bins && a < s.aCount && b <= s.bCount
    ensures BinStart(s, bin) <= FlatCell(s, bin, a, b) <= BinStart(s, bin + 1) <= CellCount(s)
  {
    Regroup(bin, s.aCount, s.bCount);
    Distribute(bin * s.aCount, a, s.bCount);
    Distribute(bin, 1, s.aCount * s.bCount);
    Grows(a + 1, s.aCount, s.bCount);
    Distribute(a, 1, s.bCount);
    Grows(bin + 1, s.bins, s.aCount * s.bCount);
    Regroup(s.bins, s.aCount, s.bCount);
  }

  /** The row at position q matches and lies in the given bin. */
  ghost predicate Adds(cube: Cube, d: Data, spec: Spec, bin: nat, q: nat)
    requires IsCube(cube, d) && q < |d.vectors|
  {
    Matches(d, spec, cube.posToGlobal[q]) && d.bin[cube.posToGlobal[q]] == bin
  }

  lemma BinCovered(cube: Cube, d: Data, spec: Spec, before: seq<Slice>, after: seq<Slice>, bin: nat)
    requires IsCube(cube, d) && bin < d.schema.bins && CoversBins(cube, d, spec, before, bin)
    requires InOrder(after, |d.vectors|) && EndBefore(cube, d, after, BinStart(d.schema, bin + 1))
    requires forall q :: 0 <= q < |d.vectors| ==>
      (Inside(after, q) <==> (Inside(before, q) || Adds(cube, d, spec, bin, q)))
    ensures CoversBins(cube, d, spec, after, bin + 1)
  {
  }

  /** One slice of A label a in one bin. */
  method AddASlice(cube: Cube, ghost d: Data, s: Schema, bin: nat, a: nat, segments: seq<Slice>)
    returns (more: seq<Slice>)
    requires IsCube(cube, d) && s == d.schema && bin < s.bins && a < s.aCount
    requires CoversBins(cube, d, Equality(a), segments, bin)
    ensures CoversBins(cube, d, Equality(a), more, bin + 1)
  {
    hide IsLayout, CellsOf;
    CubeExtents(cube, d);
    var slice := ASlice(cube, s, bin, a);
    more := segments + [slice];
    InsideBin(s, bin, a, 0);
    InsideBin(s, bin, a, s.bCount);
    var first := FlatCell(s, bin, a, 0);
    assert FlatCell(s, bin, a, s.bCount) == first + s.bCount;
    AppendSlice(cube, d, segments, BinStart(s, bin), first, first + s.bCount);
    LaterEnd(cube, d, more, first + s.bCount, BinStart(s, bin + 1));
    forall q | 0 <= q < |d.vectors|
      ensures Inside(more, q) <==> (Inside(segments, q) || Adds(cube, d, Equality(a), bin, q))
    {
      InsideAppend(segments, slice, q);
      ASliceIsA(cube, d, bin, a, q);
    }
    BinCovered(cube, d, Equality(a), segments, more, bin);
  }

  /** One cell slice, appended after segments that end before it. */
  lemma AddCell(cube: Cube, d: Data, bin: nat, a: nat, b: nat, segments: seq<Slice>, bound: nat)
    requires IsCube(cube, d) && InSchema(d.schema, bin, a, b)
    requires InOrder(segments, |d.vectors|) && EndBefore(cube, d, segments, bound)
    requires bound <= FlatCell(d.schema, bin, a, b)
    ensures var more := segments + [CellSlice(cube, d.schema, bin, a, b)];
      && InOrder(more, |d.vectors|)
      && EndBefore(cube, d, more, FlatCell(d.schema, bin, a, b) + 1)
      && FlatCell(d.schema, bin, a, b) + 1 <= BinStart(d.schema, bin + 1)
      && forall q :: 0 <= q < |d.vectors| ==>
           (Inside(more, q) <==> (Inside(segments, q) || Adds(cube, d, Conjunction(a, b), bin, q)))
  {
    var slice := CellSlice(cube, d.schema, bin, a, b);
    var cell := FlatCell(d.schema, bin, a, b);
    FlatInRange(d.schema, bin, a, b);
    InsideBin(d.schema, bin, a, b + 1);
    assert FlatCell(d.schema, bin, a, b + 1) == cell + 1;
    AppendSlice(cube, d, segments, bound, cell, cell + 1);
    forall q | 0 <= q < |d.vectors|
      ensures Inside(segments + [slice], q) <==> (Inside(segments, q) || Adds(cube, d, Conjunction(a, b), bin, q))
    {
      InsideAppend(segments, slice, q);
      CellSliceIsCell(cube, d, bin, a, b, q);
    }
  }

  method AddCellSlice(cube: Cube, ghost d: Data, s: Schema, bin: nat, a: nat, b: nat, segments: seq<Slice>)
    returns (more: seq<Slice>)
    requires IsCube(cube, d) && s == d.schema && InSchema(s, bin, a, b)
    requires CoversBins(cube, d, Conjunction(a, b), segments, bin)
    ensures CoversBins(cube, d, Conjunction(a, b), more, bin + 1)
  {
    hide IsLayout, CellsOf;
    CubeExtents(cube, d);
    more := segments + [CellSlice(cube, s, bin, a, b)];
    InsideBin(s, bin, a, b);
    AddCell(cube, d, bin, a, b, segments, BinStart(s, bin));
    LaterEnd(cube, d, more, FlatCell(s, bin, a, b) + 1, BinStart(s, bin + 1));
    BinCovered(cube, d, Conjunction(a, b), segments, more, bin);
  }

  function PairId(s: Schema, a: nat, b: nat): nat {
    a * s.bCount + b
  }

  lemma AddTwoCells(cube: Cube, d: Data, bin: nat, a: nat, b: nat, c: nat, e: nat, segments: seq<Slice>, spec: Spec)
    requires IsCube(cube, d) && InSchema(d.schema, bin, a, b) && InSchema(d.schema, bin, c, e)
    requires PairId(d.schema, a, b) < PairId(d.schema, c, e)
    requires spec == Dnf(a, b, c, e) || spec == Dnf(c, e, a, b)
    requires CoversBins(cube, d, spec, segments, bin)
    ensures CoversBins(cube, d, spec,
      segments + [CellSlice(cube, d.schema, bin, a, b)] + [CellSlice(cube, d.schema, bin, c, e)], bin + 1)
  {
    hide IsLayout, CellsOf;
    CubeExtents(cube, d);
    var s := d.schema;
    var one := segments + [CellSlice(cube, s, bin, a, b)];
    InsideBin(s, bin, a, b);
    AddCell(cube, d, bin, a, b, segments, BinStart(s, bin));
    BinMajor(s, bin, a, b);
    BinMajor(s, bin, c, e);
    AddCell(cube, d, bin, c, e, one, FlatCell(s, bin, a, b) + 1);
    var two := one + [CellSlice(cube, s, bin, c, e)];
    LaterEnd(cube, d, two, FlatCell(s, bin, c, e) + 1, BinStart(s, bin + 1));
    forall q | 0 <= q < |d.vectors|
      ensures Inside(two, q) <==> (Inside(segments, q) || Adds(cube, d, spec, bin, q))
    {
      assert Adds(cube, d, spec, bin, q) <==>
        (Adds(cube, d, Conjunction(a, b), bin, q) || Adds(cube, d, Conjunction(c, e), bin, q));
    }
    BinCovered(cube, d, spec, segments, two, bin);
  }

  lemma PairsDiffer(s: Schema, spec: Spec)
    requires spec.Dnf? && ValidSpec(s, spec)
    ensures PairId(s, spec.a, spec.b) != PairId(s, spec.c, spec.d)
  {
    PairOrder(s.bCount, spec.a, spec.b, spec.c, spec.d);
  }

  /** The segments of the X routes: one slice for a range, one or two per bin otherwise. */
  method Segments(cube: Cube, ghost d: Data, s: Schema, spec: Spec) returns (segments: seq<Slice>)
    requires IsCube(cube, d) && s == d.schema && ValidSpec(s, spec)
    ensures InOrder(segments, |d.vectors|)
    ensures forall q :: 0 <= q < |d.vectors| ==> (Inside(segments, q) <==> Matches(d, spec, cube.posToGlobal[q]))
  {
    hide CellsOf, IsLayout, CoversBins;
    CubeExtents(cube, d);
    if spec.Range? {
      segments := [RangeSlice(cube, s, spec.lo, spec.hi)];
      OneRangeSlice(cube, d, spec);
      return;
    }
    segments := [];
    NoSegments(cube, d, spec);
    for bin := 0 to s.bins
      invariant CoversBins(cube, d, spec, segments, bin)
    {
      match spec
      case Equality(a) =>
        segments := AddASlice(cube, d, s, bin, a, segments);
      case Conjunction(a, b) =>
        segments := AddCellSlice(cube, d, s, bin, a, b, segments);
      case Dnf(a, b, c, e) =>
        PairsDiffer(s, spec);
        if PairId(s, a, b) < PairId(s, c, e) {
          AddTwoCells(cube, d, bin, a, b, c, e, segments, spec);
          segments := segments + [CellSlice(cube, s, bin, a, b)] + [CellSlice(cube, s, bin, c, e)];
        } else {
          AddTwoCells(cube, d, bin, c, e, a, b, segments, spec);
          segments := segments + [CellSlice(cube, s, bin, c, e)] + [CellSlice(cube, s, bin, a, b)];
        }
    }
    AllBins(cube, d, spec, segments);
  }

  lemma OneRangeSlice(cube: Cube, d: Data, spec: Spec)
    requires IsCube(cube, d) && spec.Range? && ValidSpec(d.schema, spec)
    ensures var segments := [RangeSlice(cube, d.schema, spec.lo, spec.hi)];
      && InOrder(segments, |d.vectors|)
      && forall q :: 0 <= q < |d.vectors| ==> (Inside(segments, q) <==> Matches(d, spec, cube.posToGlobal[q]))
  {
    hide IsLayout, CellsOf;
    CubeExtents(cube, d);
    var s := d.schema;
    RangeBounds(s, spec.lo, spec.hi);
    SliceIsCells(cube, CellsOf(d), CellCount(s), d.vectors, BinStart(s, spec.lo), BinStart(s, spec.hi + 1));
    var slice := RangeSlice(cube, s, spec.lo, spec.hi);
    forall q | 0 <= q < |d.vectors|
      ensures Inside([slice], q) <==> Matches(d, spec, cube.posToGlobal[q])
    {
      hide RangeSlice;
      InsideOne(slice, q);
      RangeSliceIsRange(cube, d, spec.lo, spec.hi, q);
    }
  }

  lemma InsideOne(slice: Slice, q: nat)
    ensures Inside([slice], q) <==> slice.begin <= q < slice.end
  {
    assert [slice][0] == slice;
  }

  lemma AllBins(cube: Cube, d: Data, spec: Spec, segments: seq<Slice>)
    requires IsCube(cube, d) && CoversBins(cube, d, spec, segments, d.schema.bins)
    ensures InOrder(segments, |d.vectors|)
    ensures forall q :: 0 <= q < |d.vectors| ==> (Inside(segments, q) <==> Matches(d, spec, cube.posToGlobal[q]))
  {
  }

  lemma NoSegments(cube: Cube, d: Data, spec: Spec)
    requires IsCube(cube, d)
    ensures CoversBins(cube, d, spec, [], 0)
  {
  }

  // --- Visits ---

  ghost predicate Positions(cube: Cube, visited: seq<nat>) {
    forall i :: 0 <= i < |visited| ==> visited[i] < |cube.posToGlobal|
  }

  /** Global ids of a list of positions. */
  ghost function Globals(cube: Cube, visited: seq<nat>): (ids: seq<nat>)
    requires Positions(cube, visited)
    ensures |ids| == |visited|
  {
    seq(|visited|, i requires 0 <= i < |visited| => cube.posToGlobal[visited[i]])
  }

  /** Ascending positions that hold exactly the matching rows are an exact visit. */
  lemma PositionsAreExact(cube: Cube, d: Data, spec: Spec, query: Vector, k: nat, visited: seq<nat>)
    requires IsCube(cube, d) && Ascending(visited)
    requires forall q: nat :: q in visited <==> q < |d.vectors| && Matches(d, spec, cube.posToGlobal[q])
    ensures Positions(cube, visited) && InData(d, Globals(cube, visited))
    ensures IsExact(d, spec, query, k, ExactOver(d, query, Globals(cube, visited), k))
  {
    forall i | 0 <= i < |visited|
      ensures visited[i] < |cube.posToGlobal| && Matches(d, spec, cube.posToGlobal[visited[i]])
    {
      assert visited[i] in visited;
    }
    var ids := Globals(cube, visited);
    forall i, j | 0 <= i < j < |ids| ensures ids[i] != ids[j] {
      assert cube.globalToPos[ids[i]] == visited[i] && cube.globalToPos[ids[j]] == visited[j];
    }
    forall g: nat ensures g in ids <==> Matches(d, spec, g) {
      if Matches(d, spec, g) {
        var q := cube.globalToPos[g];
        assert cube.posToGlobal[q] == g && q in visited;
        var i :| 0 <= i < |visited| && visited[i] == q;
        assert ids[i] == g;
      }
    }
    VisitIsExact(d, spec, query, k, ids);
  }

  /** Feeding a position is feeding its row of the data set. */
  lemma FedRow(cube: Cube, d: Data, visited: seq<nat>, q: nat)
    requires IsCube(cube, d) && Positions(cube, visited) && q < |d.vectors|
    ensures Positions(cube, visited + [q])
    ensures InData(d, Globals(cube, visited)) && InData(d, Globals(cube, visited + [q]))
    ensures RowsOf(d, Globals(cube, visited + [q]))
         == RowsOf(d, Globals(cube, visited)) + [Candidate(cube.vectors[q], cube.posToGlobal[q])]
  {
  }

  /** The scanner has been fed exactly the rows at the visited positions. */
  ghost predicate Feeding(scan: FourWayTopK, cube: Cube, d: Data, query: Vector, k: nat, visited: seq<nat>)
    reads scan, scan.vectors, scan.globals, scan.top, scan.top.heap
  {
    && IsCube(cube, d) && Positions(cube, visited) && InData(d, Globals(cube, visited))
    && scan.query == query && scan.top.k == k && scan.Valid()
    && scan.Fed() == RowsOf(d, Globals(cube, visited))
  }

  method FeedPosition(scan: FourWayTopK, cube: Cube, ghost d: Data, ghost query: Vector, ghost k: nat,
                      ghost visited: seq<nat>, position: nat)
    requires Feeding(scan, cube, d, query, k, visited) && position < |d.vectors|
    requires |cube.vectors| == |cube.posToGlobal| == |d.vectors|
    modifies scan, scan.vectors, scan.globals, scan.top, scan.top.heap
    ensures Feeding(scan, cube, d, query, k, visited + [position])
  {
    hide IsCube, RowsOf, FourWayTopK.Valid, FourWayTopK.Fed;
    FedRow(cube, d, visited, position);
    scan.Add(cube.vectors[position], cube.posToGlobal[position]);
  }

  method StartScan(cube: Cube, ghost d: Data, query: Vector, k: nat) returns (scan: FourWayTopK)
    requires IsCube(cube, d) && k > 0
    ensures fresh(scan) && fresh(scan.vectors) && fresh(scan.globals) && fresh(scan.top) && fresh(scan.top.heap)
    ensures Feeding(scan, cube, d, query, k, [])
  {
    scan := new FourWayTopK(query, k);
  }

  lemma ExtendAscending(visited: seq<nat>, q: nat)
    requires Ascending(visited) && forall v: nat :: v in visited ==> v < q
    ensures Ascending(visited + [q])
    ensures forall v: nat :: v in visited + [q] <==> v in visited || v == q
  {
    assert forall i :: 0 <= i < |visited| ==> visited[i] in visited;
  }

  /** The positions below the row count inside some segment, ascending, name rows of the data. */
  ghost predicate Visits(cube: Cube, d: Data, segments: seq<Slice>, visited: seq<nat>) {
    Ascending(visited)
    && (forall q: nat :: q in visited <==> q < |d.vectors| && Inside(segments, q))
    && Positions(cube, visited) && InData(d, Globals(cube, visited))
  }

  /** The four-way scan of a list of segments, in order, ranks the rows inside them. */
  method ScanSegments(cube: Cube, ghost d: Data, segments: seq<Slice>, query: Vector, k: nat)
    returns (result: Option<seq<int>>)
    requires IsCube(cube, d) && InOrder(segments, |d.vectors|) && k > 0
    ensures exists visited ::
      Visits(cube, d, segments, visited) && result == ExactOver(d, query, Globals(cube, visited), k)
  {
    hide IsCube, IsLayout, Feeding, Inside;
    CubeExtents(cube, d);
    ghost var visited: seq<nat> := [];
    var scan := StartScan(cube, d, query, k);
    assert forall q: nat :: !Inside(segments[..0], q) by { NothingInside(segments[..0]); }
    for part := 0 to |segments|
      invariant fresh(scan) && fresh(scan.vectors) && fresh(scan.globals) && fresh(scan.top) && fresh(scan.top.heap)
      invariant Feeding(scan, cube, d, query, k, visited)
      invariant Ascending(visited)
      invariant forall q: nat :: q in visited <==> q < |d.vectors| && Inside(segments[..part], q)
    {
      InsideBefore(segments, part, |d.vectors|);
      ghost var before := visited;
      for position := segments[part].begin to segments[part].end
        invariant fresh(scan) && fresh(scan.vectors) && fresh(scan.globals) && fresh(scan.top) && fresh(scan.top.heap)
        invariant Feeding(scan, cube, d, query, k, visited)
        invariant Ascending(visited)
        invariant forall q: nat :: q in visited <==> q in before || segments[part].begin <= q < position
      {
        ExtendAscending(visited, position);
        FeedPosition(scan, cube, d, query, k, visited, position);
        visited := visited + [position];
      }
    }
    assert segments[..|segments|] == segments;
    result := FinishScan(scan, cube, d, query, k, visited);
    assert Visits(cube, d, segments, visited);
  }

  method FinishScan(scan: FourWayTopK, cube: Cube, ghost d: Data, ghost query: Vector, ghost k: nat,
                    ghost visited: seq<nat>)
    returns (result: Option<seq<int>>)
    requires Feeding(scan, cube, d, query, k, visited)
    modifies scan, scan.top, scan.top.heap
    ensures Positions(cube, visited) && InData(d, Globals(cube, visited))
    ensures result == ExactOver(d, query, Globals(cube, visited), k)
  {
    result := scan.Finish();
  }

  lemma NothingInside(segments: seq<Slice>)
    requires segments == []
    ensures forall q: nat :: !Inside(segments, q)
  {
  }

  /** Positions inside the first segments lie before the next one begins. */
  lemma InsideBefore(segments: seq<Slice>, part: nat, rows: nat)
    requires InOrder(segments, rows) && part < |segments|
    ensures segments[part].begin <= segments[part].end <= rows
    ensures forall q: nat :: Inside(segments[..part], q) ==> q < segments[part].begin
    ensures forall q: nat ::
      Inside(segments[..part + 1], q) <==>
        (Inside(segments[..part], q) || segments[part].begin <= q < segments[part].end)
  {
    assert segments[..part + 1] == segments[..part] + [segments[part]];
    forall q: nat
      ensures Inside(segments[..part + 1], q) <==>
        (Inside(segments[..part], q) || segments[part].begin <= q < segments[part].end)
    {
      InsideAppend(segments[..part], segments[part], q);
    }
  }

  // --- The four arms ---

  lemma SegmentsAreExact(cube: Cube, d: Data, spec: Spec, segments: seq<Slice>, query: Vector, k: nat,
                         visited: seq<nat>)
    requires IsCube(cube, d) && Ascending(visited)
    requires forall q :: 0 <= q < |d.vectors| ==> (Inside(segments, q) <==> Matches(d, spec, cube.posToGlobal[q]))
    requires forall q: nat :: q in visited <==> q < |d.vectors| && Inside(segments, q)
    ensures Positions(cube, visited) && InData(d, Globals(cube, visited))
    ensures IsExact(d, spec, query, k, ExactOver(d, query, Globals(cube, visited), k))
  {
    PositionsAreExact(cube, d, spec, query, k, visited);
  }

  /** PLAN_OFF: XEngine on every family, ranges included. */
  method PlanOff(cube: Cube, ghost d: Data, s: Schema, spec: Spec, query: Vector, k: nat)
    returns (result: Option<seq<int>>)
    requires IsCube(cube, d) && s == d.schema && ValidSpec(s, spec) && k > 0
    ensures IsExact(d, spec, query, k, result)
  {
    hide IsCube, Inside;
    var segments := Segments(cube, d, s, spec);
    result := ScanSegments(cube, d, segments, query, k);
    ghost var visited :| Visits(cube, d, segments, visited) && result == ExactOver(d, query, Globals(cube, visited), k);
    SegmentsAreExact(cube, d, spec, segments, query, k, visited);
  }

  /** An indexed scan over positions is a scan of the rows stored there. */
  lemma GatherIsRows(cube: Cube, d: Data, visited: seq<nat>)
    requires IsCube(cube, d) && Positions(cube, visited)
    ensures InData(d, Globals(cube, visited))
    ensures forall i :: 0 <= i < |visited| ==> visited[i] < |cube.vectors|
    ensures Gather(cube.vectors, visited, Globals(cube, visited)) == RowsOf(d, Globals(cube, visited))
  {
  }

  /** FULL: the compact scan for ranges, the X routes for the other families. */
  method Full(cube: Cube, ghost d: Data, s: Schema, spec: Spec, query: Vector, t: Tuning)
    returns (result: Option<seq<int>>)
    requires IsCube(cube, d) && s == d.schema && ValidSpec(s, spec) && ValidTuning(t)
    ensures IsExact(d, spec, query, t.k, result)
  {
    hide IsLayout, CellsOf, Inside, Gather, RowsOf, Hits;
    CubeExtents(cube, d);
    if !spec.Range? {
      result := PlanOff(cube, d, s, spec, query, t.k);
      return;
    }
    var slice := RangeSlice(cube, s, spec.lo, spec.hi);
    OneRangeSlice(cube, d, spec);
    assert [slice][0] == slice;
    ghost var visited := Run(slice.begin, slice.end);
    forall q: nat ensures q in visited <==> q < |d.vectors| && Inside([slice], q) {
      InsideOne(slice, q);
    }
    SegmentsAreExact(cube, d, spec, [slice], query, t.k, visited);
    var vectors := cube.vectors[slice.begin..slice.end];
    var ids := cube.posToGlobal[slice.begin..slice.end];
    ghost var places;
    result, places := RangeScan(query, vectors, ids, t.k, t.seedRows, t.batchRows);
    SlicedRows(cube, d, slice);
  }

  ghost function Run(begin: nat, end: nat): (run: seq<nat>)
    requires begin <= end
    ensures |run| == end - begin && forall i :: 0 <= i < |run| ==> run[i] == begin + i
    ensures forall q: nat :: q in run <==> begin <= q < end
  {
    if begin == end then [] else Run(begin, end - 1) + [end - 1]
  }

  lemma SlicedRows(cube: Cube, d: Data, slice: Slice)
    requires IsCube(cube, d) && slice.begin <= slice.end <= |d.vectors|
    ensures Positions(cube, Run(slice.begin, slice.end))
    ensures InData(d, Globals(cube, Run(slice.begin, slice.end)))
    ensures var ids := cube.posToGlobal[slice.begin..slice.end];
      var vectors := cube.vectors[slice.begin..slice.end];
      seq(|ids|, i requires 0 <= i < |ids| => Candidate(vectors[i], ids[i]))
      == RowsOf(d, Globals(cube, Run(slice.begin, slice.end)))
  {
  }

  /** SUPPORT_OFF: no offsets; every position is tested against the labels. */
  method SupportOff(cube: Cube, d: Data, spec: Spec, query: Vector, t: Tuning) returns (result: Option<seq<int>>)
    requires IsCube(cube, d) && ValidTuning(t)
    ensures IsExact(d, spec, query, t.k, result)
  {
    hide IsLayout, CellsOf, Feeding, Gather, RowsOf;
    CubeExtents(cube, d);
    var positions: seq<nat> := [];
    if spec.Range? {
      for position := 0 to |cube.posToGlobal|
        invariant Ascending(positions)
        invariant forall q: nat :: q in positions <==> q < position && Matches(d, spec, cube.posToGlobal[q])
      {
        if Matches(d, spec, cube.posToGlobal[position]) {
          ExtendAscending(positions, position);
          positions := positions + [position];
        }
      }
      PositionsAreExact(cube, d, spec, query, t.k, positions);
      GatherIsRows(cube, d, positions);
      var ids := seq(|positions|, i requires 0 <= i < |positions| && Positions(cube, positions) =>
        cube.posToGlobal[positions[i]]);
      assert ids == Globals(cube, positions);
      result := IndexedScan(query, cube.vectors, positions, ids, t.k, t.seedRows, t.batchRows);
      return;
    }
    ghost var visited: seq<nat> := [];
    var scan := StartScan(cube, d, query, t.k);
    for position := 0 to |cube.posToGlobal|
      invariant fresh(scan) && fresh(scan.vectors) && fresh(scan.globals) && fresh(scan.top) && fresh(scan.top.heap)
      invariant Feeding(scan, cube, d, query, t.k, visited)
      invariant Ascending(visited)
      invariant forall q: nat :: q in visited <==> q < position && Matches(d, spec, cube.posToGlobal[q])
    {
      if Matches(d, spec, cube.posToGlobal[position]) {
        ExtendAscending(visited, position);
        FeedPosition(scan, cube, d, query, t.k, visited, position);
        visited := visited + [position];
      }
    }
    PositionsAreExact(cube, d, spec, query, t.k, visited);
    result := FinishScan(scan, cube, d, query, t.k, visited);
  }

  /** Ids of the support addressed through the inverse map reach their own rows. */
  lemma InverseRows(cube: Cube, d: Data, ids: seq<nat>, positions: seq<nat>)
    requires IsCube(cube, d) && InData(d, ids) && |positions| == |ids|
    requires forall i :: 0 <= i < |ids| ==> positions[i] == cube.globalToPos[ids[i]]
    ensures Positions(cube, positions) && Globals(cube, positions) == ids
  {
  }

  lemma SupportIsExact(d: Data, spec: Spec, query: Vector, k: nat, ids: seq<nat>)
    requires ValidData(d) && IsSupport(d, spec, ids)
    ensures InData(d, ids) && IsExact(d, spec, query, k, ExactOver(d, query, ids, k))
  {
    forall i | 0 <= i < |ids| ensures ids[i] < |d.vectors| {
      assert ids[i] in ids;
    }
  }

  /** LAYOUT_OFF: the naive support, gathered through the inverse map. */
  method LayoutOff(cube: Cube, d: Data, spec: Spec, query: Vector, t: Tuning) returns (result: Option<seq<int>>)
    requires IsCube(cube, d) && ValidTuning(t)
    ensures IsExact(d, spec, query, t.k, result)
  {
    hide IsLayout, CellsOf, Feeding, Gather, RowsOf, IsSupport, IsExact;
    CubeExtents(cube, d);
    var ids := Support(d, spec);
    SupportIsExact(d, spec, query, t.k, ids);
    var positions := seq(|ids|, i requires 0 <= i < |ids| && InData(d, ids) && |cube.globalToPos| == |d.vectors| =>
      cube.globalToPos[ids[i]]);
    InverseRows(cube, d, ids, positions);
    if spec.Range? {
      GatherIsRows(cube, d, positions);
      result := IndexedScan(query, cube.vectors, positions, ids, t.k, t.seedRows, t.batchRows);
      return;
    }
    var scan := StartScan(cube, d, query, t.k);
    for at := 0 to |ids|
      invariant fresh(scan) && fresh(scan.vectors) && fresh(scan.globals) && fresh(scan.top) && fresh(scan.top.heap)
      invariant Feeding(scan, cube, d, query, t.k, positions[..at])
    {
      FeedPosition(scan, cube, d, query, t.k, positions[..at], positions[at]);
      assert positions[..at + 1] == positions[..at] + [positions[at]];
    }
    assert positions[..|ids|] == positions;
    result := FinishScan(scan, cube, d, query, t.k, positions);
  }

  /** The four arms agree on ids and rank order, for every query and every k. */
  method CompareArms(cube: Cube, d: Data, spec: Spec, query: Vector, t: Tuning)
    returns (full: Option<seq<int>>, supportOff: Option<seq<int>>, layoutOff: Option<seq<int>>,
      planOff: Option<seq<int>>)
    requires IsCube(cube, d) && ValidSpec(d.schema, spec) && ValidTuning(t)
    ensures full == supportOff == layoutOff == planOff
    ensures IsExact(d, spec, query, t.k, full)
    ensures forall g: nat :: g < |d.vectors| ==>
      (Matches(d, spec, g) <==>
        match spec
        case Equality(a) => d.catA[g] == a
        case Conjunction(a, b) => d.catA[g] == a && d.catB[g] == b
        case Range(lo, hi) => lo <= d.bin[g] <= hi
        case Dnf(a, b, x, y) => (d.catA[g] == a && d.catB[g] == b) || (d.catA[g] == x && d.catB[g] == y))
    ensures full.None? <==> |set g: nat | g < |d.vectors| && Matches(d, spec, g)| < t.k
    ensures full.Some? ==> |full.value| == t.k && forall i :: 0 <= i < t.k ==>
      0 <= full.value[i] < |d.vectors| && Matches(d, spec, full.value[i])
    ensures full.Some? ==> forall i, j :: 0 <= i < j < t.k ==>
      var x, y := full.value[i], full.value[j];
      var near, far := SquaredL2(query, d.vectors[x]), SquaredL2(query, d.vectors[y]);
      near < far || (near == far && x < y)
    ensures full.Some? ==> forall i, g: nat :: 0 <= i < t.k && Matches(d, spec, g) && g !in full.value ==>
      var x := full.value[i];
      var kept, left := SquaredL2(query, d.vectors[x]), SquaredL2(query, d.vectors[g]);
      left > kept || (left == kept && g > x)
  {
    hide IsCube, IsExact;
    full := Full(cube, d, d.schema, spec, query, t);
    supportOff := SupportOff(cube, d, spec, query, t);
    layoutOff := LayoutOff(cube, d, spec, query, t);
    planOff := PlanOff(cube, d, d.schema, spec, query, t.k);
    CubeIsValid(cube, d);
    ExactIsUnique(d, spec, query, t.k, full, supportOff);
    ExactIsUnique(d, spec, query, t.k, full, layoutOff);
    ExactIsUnique(d, spec, query, t.k, full, planOff);
    ExactMeans(d, spec, query, t.k, full);
  }

  lemma CubeIsValid(cube: Cube, d: Data)
    requires IsCube(cube, d)
    ensures ValidData(d)
  {
  }
}

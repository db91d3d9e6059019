// The predicate cube: the layout over cells (bin, A, B) and its slices, each of
// which holds exactly the rows of one predicate.

module PredicateCube {
  import opened Options
  import opened CellLayout
  import opened LayoutAudit
  import opened Supports
  import opened DistanceKernels

  function FlatCell(s: Schema, bin: nat, a: nat, b: nat): nat {
    (bin * s.aCount + a) * s.bCount + b
  }

  function CellCount(s: Schema): nat {
    s.bins * s.aCount * s.bCount
  }

  /** Row-major arithmetic: x * w + r with r < w compares like x. */
  lemma RowMajor(x: nat, y: nat, w: nat, r: nat)
    requires r < w
    ensures x * w + r < y * w <==> x < y
    ensures y * w <= x * w + r <==> y <= x
  {
    if x < y {
      assert (x + 1) * w <= y * w;
    } else {
      assert y * w <= x * w;
    }
  }

  predicate InSchema(s: Schema, bin: nat, a: nat, b: nat) {
    bin < s.bins && a < s.aCount && b < s.bCount
  }

  lemma FlatInRange(s: Schema, bin: nat, a: nat, b: nat)
    requires InSchema(s, bin, a, b)
    ensures FlatCell(s, bin, a, b) < CellCount(s)
  {
    RowMajor(bin, s.bins, s.aCount, a);
    RowMajor(bin * s.aCount + a, s.bins * s.aCount, s.bCount, b);
  }

  lemma Distribute(x: nat, y: nat, z: nat)
    ensures (x + y) * z == x * z + y * z
  {
  }

  lemma Regroup(x: nat, y: nat, z: nat)
    ensures x * y * z == x * (y * z)
  {
  }

  lemma Grows(x: nat, y: nat, z: nat)
    requires x <= y
    ensures x * z <= y * z
  {
  }

  /** A cell is its bin times the cells per bin, plus a remainder. */
  lemma BinMajor(s: Schema, bin: nat, a: nat, b: nat)
    requires a < s.aCount && b < s.bCount
    ensures FlatCell(s, bin, a, b) == bin * (s.aCount * s.bCount) + (a * s.bCount + b)
    ensures a * s.bCount + b < s.aCount * s.bCount
  {
    RowMajor(a, s.aCount, s.bCount, b);
    Distribute(bin * s.aCount, a, s.bCount);
    Regroup(bin, s.aCount, s.bCount);
  }

  /** The cells of bins lo..hi are consecutive. */
  lemma RangeCells(s: Schema, lo: nat, hi: nat, bin: nat, a: nat, b: nat)
    requires InSchema(s, bin, a, b) && lo <= hi < s.bins
    ensures var perBin := s.aCount * s.bCount;
      && lo * perBin <= (hi + 1) * perBin <= CellCount(s)
      && (lo * perBin <= FlatCell(s, bin, a, b) < (hi + 1) * perBin <==> lo <= bin <= hi)
  {
    var perBin := s.aCount * s.bCount;
    RangeBounds(s, lo, hi);
    BinMajor(s, bin, a, b);
    RowMajor(bin, lo, perBin, a * s.bCount + b);
    RowMajor(bin, hi + 1, perBin, a * s.bCount + b);
  }

  lemma RangeBounds(s: Schema, lo: nat, hi: nat)
    requires lo <= hi < s.bins
    ensures lo * (s.aCount * s.bCount) <= (hi + 1) * (s.aCount * s.bCount) <= CellCount(s)
  {
    var perBin := s.aCount * s.bCount;
    Grows(lo, hi + 1, perBin);
    Grows(hi + 1, s.bins, perBin);
    Regroup(s.bins, s.aCount, s.bCount);
  }

  lemma PairOrder(w: nat, x: nat, r: nat, x': nat, r': nat)
    requires r < w && r' < w
    ensures x * w + r == x' * w + r' <==> x == x' && r == r'
    ensures x * w + r < x' * w + r' <==> x < x' || (x == x' && r < r')
  {
    RowMajor(x, x', w, r);
    RowMajor(x', x, w, r');
  }

  lemma FlatIsRow(s: Schema, bin: nat, a: nat, b: nat)
    ensures FlatCell(s, bin, a, b) == (bin * s.aCount + a) * s.bCount + b
  {
  }

  /** The cells of one bin and one A label are consecutive. */
  lemma ACells(s: Schema, bin: nat, a: nat, bin': nat, a': nat, b': nat)
    requires a < s.aCount && InSchema(s, bin', a', b')
    ensures FlatCell(s, bin, a, 0) <= FlatCell(s, bin', a', b') < FlatCell(s, bin, a, 0) + s.bCount
       <==> bin == bin' && a == a'
  {
    hide FlatCell;
    var x, x' := bin * s.aCount + a, bin' * s.aCount + a';
    FlatIsRow(s, bin, a, 0);
    FlatIsRow(s, bin', a', b');
    InRow(x, x', s.bCount, b');
    PairOrder(s.aCount, bin, a, bin', a');
  }

  lemma InRow(x: nat, x': nat, w: nat, r: nat)
    requires r < w
    ensures x * w <= x' * w + r < x * w + w <==> x == x'
  {
    RowMajor(x', x, w, r);
    RowMajor(x', x + 1, w, r);
    Distribute(x, 1, w);
  }

  lemma ABounds(s: Schema, bin: nat, a: nat)
    requires bin < s.bins && a < s.aCount
    ensures FlatCell(s, bin, a, 0) + s.bCount <= CellCount(s)
  {
    RowMajor(bin, s.bins, s.aCount, a);
    Grows(bin * s.aCount + a + 1, s.bins * s.aCount, s.bCount);
    Distribute(bin * s.aCount + a, 1, s.bCount);
  }

  lemma FlatInjective(s: Schema, bin: nat, a: nat, b: nat, bin': nat, a': nat, b': nat)
    requires InSchema(s, bin, a, b) && InSchema(s, bin', a', b')
    ensures FlatCell(s, bin, a, b) == FlatCell(s, bin', a', b') <==> bin == bin' && a == a' && b == b'
  {
    hide FlatCell;
    var x, x' := bin * s.aCount + a, bin' * s.aCount + a';
    FlatIsRow(s, bin, a, b);
    FlatIsRow(s, bin', a', b');
    SamePlace(s.bCount, x, b, x', b');
    SamePlace(s.aCount, bin, a, bin', a');
  }

  lemma SamePlace(w: nat, x: nat, r: nat, x': nat, r': nat)
    requires r < w && r' < w
    ensures x * w + r == x' * w + r' <==> x == x' && r == r'
  {
    PairOrder(w, x, r, x', r');
  }

  // --- The cube over a data set ---

  type Cube = Layout<Vector>

  function CellsOf(d: Data): (cellOf: seq<nat>)
    requires |d.catA| == |d.vectors| && |d.catB| == |d.vectors| && |d.bin| == |d.vectors|
    ensures |cellOf| == |d.vectors|
  {
    seq(|d.vectors|, g requires 0 <= g < |d.vectors| => FlatCell(d.schema, d.bin[g], d.catA[g], d.catB[g]))
  }

  ghost predicate IsCube(cube: Cube, d: Data) {
    ValidData(d) && IsLayout(cube, CellsOf(d), CellCount(d.schema), d.vectors)
  }

  lemma CellsInRange(d: Data)
    requires ValidData(d)
    ensures forall g :: 0 <= g < |d.vectors| ==> CellsOf(d)[g] < CellCount(d.schema)
  {
    forall g | 0 <= g < |d.vectors| ensures CellsOf(d)[g] < CellCount(d.schema) {
      FlatInRange(d.schema, d.bin[g], d.catA[g], d.catB[g]);
    }
  }

  const UINT32_MAX := 0xffff_ffff

  /** The checks that make the constructor throw before it builds anything. */
  predicate Accepted(d: Data) {
    && d.schema.bins > 0 && d.schema.aCount > 0 && d.schema.bCount > 0
    && CellCount(d.schema) < UINT32_MAX && 0 < |d.vectors| <= UINT32_MAX
    && |d.catA| == |d.vectors| && |d.catB| == |d.vectors| && |d.bin| == |d.vectors|
    && forall g :: 0 <= g < |d.vectors| ==> InSchema(d.schema, d.bin[g], d.catA[g], d.catB[g])
  }

  /** Builds and audits; the audit of a constructed cube never fails. */
  method BuildCube(d: Data) returns (result: Option<Cube>)
    ensures result.Some? <==> Accepted(d)
    ensures result.Some? ==> IsCube(result.value, d)
  {
    if !Accepted(d) {
      return None;
    }
    CellsInRange(d);
    var cells := CellCount(d.schema);
    var cube := Build(CellsOf(d), cells, d.vectors);
    var ref := Reference(CellsOf(d), seq(|d.vectors|, _ => true), d.vectors);
    var audit := AuditAgainst(cube, ref, |d.vectors|, cells);
    if !audit.Passed() {
      return None;
    }
    result := Some(cube);
  }

  // --- Slices ---

  datatype Slice = Slice(begin: nat, end: nat)

  function RangeSlice(cube: Cube, s: Schema, lo: nat, hi: nat): Slice
    requires lo <= hi < s.bins && |cube.offsets| == CellCount(s) + 1
  {
    RangeBounds(s, lo, hi);
    Slice(cube.offsets[lo * (s.aCount * s.bCount)], cube.offsets[(hi + 1) * (s.aCount * s.bCount)])
  }

  function ASlice(cube: Cube, s: Schema, bin: nat, a: nat): Slice
    requires bin < s.bins && a < s.aCount && |cube.offsets| == CellCount(s) + 1
  {
    ABounds(s, bin, a);
    Slice(cube.offsets[FlatCell(s, bin, a, 0)], cube.offsets[FlatCell(s, bin, a, 0) + s.bCount])
  }

  function CellSlice(cube: Cube, s: Schema, bin: nat, a: nat, b: nat): Slice
    requires InSchema(s, bin, a, b) && |cube.offsets| == CellCount(s) + 1
  {
    FlatInRange(s, bin, a, b);
    Slice(cube.offsets[FlatCell(s, bin, a, b)], cube.offsets[FlatCell(s, bin, a, b) + 1])
  }

  lemma RangeSliceIsRange(cube: Cube, d: Data, lo: nat, hi: nat, q: nat)
    requires IsCube(cube, d) && lo <= hi < d.schema.bins && q < |d.vectors|
    ensures var slice := RangeSlice(cube, d.schema, lo, hi);
      && slice.begin <= slice.end <= |d.vectors|
      && (slice.begin <= q < slice.end <==> lo <= d.bin[cube.posToGlobal[q]] <= hi)
  {
    var perBin := d.schema.aCount * d.schema.bCount;
    RangeBounds(d.schema, lo, hi);
    SliceIsCells(cube, CellsOf(d), CellCount(d.schema), d.vectors, lo * perBin, (hi + 1) * perBin);
    var g := cube.posToGlobal[q];
    RangeCells(d.schema, lo, hi, d.bin[g], d.catA[g], d.catB[g]);
  }

  lemma ASliceIsA(cube: Cube, d: Data, bin: nat, a: nat, q: nat)
    requires IsCube(cube, d) && bin < d.schema.bins && a < d.schema.aCount && q < |d.vectors|
    ensures var slice := ASlice(cube, d.schema, bin, a);
      && slice.begin <= slice.end <= |d.vectors|
      && (slice.begin <= q < slice.end <==> d.bin[cube.posToGlobal[q]] == bin && d.catA[cube.posToGlobal[q]] == a)
  {
    var first := FlatCell(d.schema, bin, a, 0);
    ABounds(d.schema, bin, a);
    SliceIsCells(cube, CellsOf(d), CellCount(d.schema), d.vectors, first, first + d.schema.bCount);
    var g := cube.posToGlobal[q];
    ACells(d.schema, bin, a, d.bin[g], d.catA[g], d.catB[g]);
  }

  lemma CellSliceIsCell(cube: Cube, d: Data, bin: nat, a: nat, b: nat, q: nat)
    requires IsCube(cube, d) && InSchema(d.schema, bin, a, b) && q < |d.vectors|
    ensures var slice := CellSlice(cube, d.schema, bin, a, b);
      && slice.begin <= slice.end <= |d.vectors|
      && (slice.begin <= q < slice.end <==>
          d.bin[cube.posToGlobal[q]] == bin && d.catA[cube.posToGlobal[q]] == a && d.catB[cube.posToGlobal[q]] == b)
  {
    var cell := FlatCell(d.schema, bin, a, b);
    FlatInRange(d.schema, bin, a, b);
    SliceIsCells(cube, CellsOf(d), CellCount(d.schema), d.vectors, cell, cell + 1);
    var g := cube.posToGlobal[q];
    FlatInjective(d.schema, bin, a, b, d.bin[g], d.catA[g], d.catB[g]);
  }
}

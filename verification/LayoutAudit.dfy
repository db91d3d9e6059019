// The construction audit: counters over every cell, position and global id.
// It passes exactly on the one correct layout.

module LayoutAudit {
  import opened CellLayout

  datatype Audit = Audit(rowsExpected: nat, rowsAudited: nat, cellsExpected: nat, cellsAudited: nat,
                         uniqueIds: nat, extentFailures: nat, offsetFailures: nat, invalidIds: nat,
                         duplicateIds: nat, missingIds: nat, inverseFailures: nat, domainFailures: nat,
                         bucketFailures: nat, orderFailures: nat, vectorFailures: nat)
  {
    function FailureCount(): nat {
      extentFailures + offsetFailures + invalidIds + duplicateIds + missingIds + inverseFailures +
      domainFailures + bucketFailures + orderFailures + vectorFailures
    }

    predicate Passed() {
      FailureCount() == 0 && rowsAudited == rowsExpected && uniqueIds == rowsExpected && cellsAudited == cellsExpected
    }
  }

  /** Reference data: the cell of each row, whether its labels are in their
      domains, and its canonical payload. */
  datatype Reference<V> = Reference(cellOf: seq<nat>, labelsValid: seq<bool>, vectors: seq<V>)

  ghost predicate Matching<V>(l: Layout<V>, ref: Reference<V>, rows: nat, cells: nat) {
    && |ref.vectors| == rows && |ref.cellOf| == rows && |ref.labelsValid| == rows
    && Extents(l, rows, cells)
  }

  /** What the audit checks of one position, given where its cell begins. */
  ghost predicate PositionGood<V>(l: Layout<V>, ref: Reference<V>, rows: nat, cells: nat, cell: nat, begin: nat, p: nat)
    requires Matching(l, ref, rows, cells) && p < rows
  {
    var g := l.posToGlobal[p];
    && g < rows && l.globalToPos[g] == p
    && ref.labelsValid[g] && ref.cellOf[g] == cell
    && (begin < p ==> l.posToGlobal[p - 1] < g)
    && l.vectors[p] == ref.vectors[g]
  }

  ghost predicate RangeGood<V>(l: Layout<V>, ref: Reference<V>, rows: nat, cells: nat, cell: nat, begin: nat, end: nat)
    requires Matching(l, ref, rows, cells)
  {
    begin <= end <= rows && forall p :: begin <= p < end ==> PositionGood(l, ref, rows, cells, cell, begin, p)
  }

  /** Endpoints and the first `n` cells are good. */
  ghost predicate CellsGood<V>(l: Layout<V>, ref: Reference<V>, rows: nat, cells: nat, n: nat)
    requires Matching(l, ref, rows, cells) && n <= cells
  {
    && l.offsets[0] == 0 && l.offsets[cells] == rows
    && forall c :: 0 <= c < n ==> RangeGood(l, ref, rows, cells, c, l.offsets[c], l.offsets[c + 1])
  }

  /** The ids seen are those of the positions below p. */
  ghost predicate SeenBelow<V>(l: Layout<V>, rows: nat, seen: seq<bool>, p: nat) {
    && |l.posToGlobal| == rows && |seen| == rows && p <= rows
    && forall g :: 0 <= g < rows ==> (seen[g] <==> exists q :: 0 <= q < p && l.posToGlobal[q] == g)
  }

  /** An id seen while everything was good sits below the current position. */
  lemma SeenEarlier<V>(l: Layout<V>, ref: Reference<V>, rows: nat, cells: nat, cell: nat, position: nat,
                       seen: seq<bool>, g: nat)
    requires Matching(l, ref, rows, cells) && cell < cells && CellsGood(l, ref, rows, cells, cell)
    requires RangeGood(l, ref, rows, cells, cell, l.offsets[cell], position)
    requires SeenBelow(l, rows, seen, position) && g < rows && seen[g]
    ensures l.globalToPos[g] < position
  {
    var q :| 0 <= q < position && l.posToGlobal[q] == g;
    if q < l.offsets[cell] {
      var c := CellOfPosition(l.offsets, q, cell);
      assert RangeGood(l, ref, rows, cells, c, l.offsets[c], l.offsets[c + 1]);
      assert PositionGood(l, ref, rows, cells, c, l.offsets[c], q);
    } else {
      assert PositionGood(l, ref, rows, cells, cell, l.offsets[cell], q);
    }
  }

  lemma RangeStep<V>(l: Layout<V>, ref: Reference<V>, rows: nat, cells: nat, cell: nat, begin: nat, p: nat)
    requires Matching(l, ref, rows, cells) && begin <= p < rows
    ensures RangeGood(l, ref, rows, cells, cell, begin, p + 1)
       <==> RangeGood(l, ref, rows, cells, cell, begin, p) && PositionGood(l, ref, rows, cells, cell, begin, p)
  {
  }

  method AuditCell<V(==)>(l: Layout<V>, ref: Reference<V>, rows: nat, cells: nat, cell: nat,
                          seen: array<bool>, before: Audit) returns (out: Audit)
    requires Matching(l, ref, rows, cells) && cell < cells
    requires l.offsets[cell] <= l.offsets[cell + 1] <= rows && seen.Length == rows
    requires before.FailureCount() == 0 <==> CellsGood(l, ref, rows, cells, cell)
    requires CellsGood(l, ref, rows, cells, cell) ==>
      SeenBelow(l, rows, seen[..], l.offsets[cell]) && before.uniqueIds == before.rowsAudited == l.offsets[cell]
    modifies seen
    ensures out.rowsExpected == before.rowsExpected && out.cellsExpected == before.cellsExpected
    ensures out.cellsAudited == before.cellsAudited
    ensures out.FailureCount() == 0 <==> CellsGood(l, ref, rows, cells, cell + 1)
    ensures CellsGood(l, ref, rows, cells, cell + 1) ==>
      SeenBelow(l, rows, seen[..], l.offsets[cell + 1]) && out.uniqueIds == out.rowsAudited == l.offsets[cell + 1]
  {
    var begin, end := l.offsets[cell], l.offsets[cell + 1];
    out := before;
    var previous, havePrevious := 0, false;
    var position := begin;
    ghost var good := CellsGood(l, ref, rows, cells, cell);
    while position < end
      invariant begin <= position <= end
      invariant out.rowsExpected == before.rowsExpected && out.cellsExpected == before.cellsExpected
      invariant out.cellsAudited == before.cellsAudited
      invariant out.FailureCount() == 0 <==> good && RangeGood(l, ref, rows, cells, cell, begin, position)
      invariant good && RangeGood(l, ref, rows, cells, cell, begin, position) ==>
        && SeenBelow(l, rows, seen[..], position) && out.uniqueIds == out.rowsAudited == position
        && (havePrevious <==> begin < position) && (havePrevious ==> previous == l.posToGlobal[position - 1])
    {
      ghost var clean := good && RangeGood(l, ref, rows, cells, cell, begin, position);
      RangeStep(l, ref, rows, cells, cell, begin, position);
      hide RangeGood, CellsGood;
      var g := l.posToGlobal[position];
      out := out.(rowsAudited := out.rowsAudited + 1);
      if g >= rows {
        out := out.(invalidIds := out.invalidIds + 1);
      } else {
        if clean && seen[g] {
          SeenEarlier(l, ref, rows, cells, cell, position, seen[..], g);
        }
        if seen[g] {
          out := out.(duplicateIds := out.duplicateIds + 1);
        } else {
          seen[g] := true;
          out := out.(uniqueIds := out.uniqueIds + 1);
        }
        if l.globalToPos[g] != position {
          out := out.(inverseFailures := out.inverseFailures + 1);
        }
        if !ref.labelsValid[g] {
          out := out.(domainFailures := out.domainFailures + 1);
        } else if ref.cellOf[g] != cell {
          out := out.(bucketFailures := out.bucketFailures + 1);
        }
        if havePrevious && g <= previous {
          out := out.(orderFailures := out.orderFailures + 1);
        }
        previous, havePrevious := g, true;
        if l.vectors[position] != ref.vectors[g] {
          out := out.(vectorFailures := out.vectorFailures + 1);
        }
      }
      position := position + 1;
    }
  }

  /** Every id was seen and both maps agree on ids below g. */
  ghost predicate IdsGood<V>(l: Layout<V>, rows: nat, seen: seq<bool>, g: nat) {
    && |l.posToGlobal| == rows && |l.globalToPos| == rows && |seen| == rows && g <= rows
    && forall h :: 0 <= h < g ==> seen[h] && l.globalToPos[h] < rows && l.posToGlobal[l.globalToPos[h]] == h
  }

  lemma {:induction false} OffsetsRise<V>(l: Layout<V>, ref: Reference<V>, rows: nat, cells: nat, c: nat, d: nat)
    requires Matching(l, ref, rows, cells) && CellsGood(l, ref, rows, cells, cells) && c <= d <= cells
    ensures l.offsets[c] <= l.offsets[d] <= rows
    decreases d
  {
    if c < d {
      OffsetsRise(l, ref, rows, cells, c, d - 1);
      assert RangeGood(l, ref, rows, cells, d - 1, l.offsets[d - 1], l.offsets[d]);
    } else if d < cells {
      assert RangeGood(l, ref, rows, cells, d, l.offsets[d], l.offsets[d + 1]);
    }
  }

  /** Inside one good cell ids ascend. */
  lemma {:induction false} CellAscends<V>(l: Layout<V>, ref: Reference<V>, rows: nat, cells: nat, cell: nat,
                                          begin: nat, end: nat, p: nat, q: nat)
    requires Matching(l, ref, rows, cells) && RangeGood(l, ref, rows, cells, cell, begin, end)
    requires begin <= p < q < end
    ensures l.posToGlobal[p] < l.posToGlobal[q]
    decreases q
  {
    assert PositionGood(l, ref, rows, cells, cell, begin, q);
    if p < q - 1 {
      CellAscends(l, ref, rows, cells, cell, begin, end, p, q - 1);
    }
  }

  lemma CleanPosition<V>(l: Layout<V>, ref: Reference<V>, rows: nat, cells: nat, p: nat) returns (c: nat)
    requires Matching(l, ref, rows, cells) && CellsGood(l, ref, rows, cells, cells) && p < rows
    ensures c < cells && l.offsets[c] <= p < l.offsets[c + 1]
    ensures RangeGood(l, ref, rows, cells, c, l.offsets[c], l.offsets[c + 1])
    ensures PositionGood(l, ref, rows, cells, c, l.offsets[c], p)
  {
    c := CellOfPosition(l.offsets, p, cells);
    assert RangeGood(l, ref, rows, cells, c, l.offsets[c], l.offsets[c + 1]);
  }

  /** What a passing audit has checked is the whole layout. */
  lemma CleanIsLayout<V>(l: Layout<V>, ref: Reference<V>, rows: nat, cells: nat, seen: seq<bool>)
    requires Matching(l, ref, rows, cells)
    requires CellsGood(l, ref, rows, cells, cells) && IdsGood(l, rows, seen, rows)
    ensures IsLayout(l, ref.cellOf, cells, ref.vectors)
    ensures forall g :: 0 <= g < rows ==> ref.labelsValid[g]
  {
    forall p: nat | p < rows
      ensures var g := l.posToGlobal[p];
        && g < rows && l.globalToPos[g] == p && l.vectors[p] == ref.vectors[g]
        && ref.labelsValid[g] && ref.cellOf[g] < cells
        && l.offsets[ref.cellOf[g]] <= p < l.offsets[ref.cellOf[g] + 1]
    {
      var c := CleanPosition(l, ref, rows, cells, p);
    }
    forall g | 0 <= g < rows ensures ref.labelsValid[g] && ref.cellOf[g] < cells {
      assert l.posToGlobal[l.globalToPos[g]] == g;
    }
    forall c: nat, p: nat | c <= cells && p < rows
      ensures p < l.offsets[c] <==> ref.cellOf[l.posToGlobal[p]] < c
    {
      var d := ref.cellOf[l.posToGlobal[p]];
      if d < c {
        OffsetsRise(l, ref, rows, cells, d + 1, c);
      } else {
        OffsetsRise(l, ref, rows, cells, c, d);
      }
    }
    forall c: nat | c <= cells ensures l.offsets[c] <= rows {
      OffsetsRise(l, ref, rows, cells, c, c);
    }
    forall p: nat, q: nat | p < q < rows ensures Before(ref.cellOf, l.posToGlobal[p], l.posToGlobal[q]) {
      var c := CleanPosition(l, ref, rows, cells, p);
      var d := ref.cellOf[l.posToGlobal[q]];
      assert q < l.offsets[c] <==> d < c;
      if d == c {
        CellAscends(l, ref, rows, cells, c, l.offsets[c], l.offsets[c + 1], p, q);
      }
    }
  }

  /** The correct layout raises no complaint. */
  lemma LayoutIsClean<V>(l: Layout<V>, ref: Reference<V>, rows: nat, cells: nat)
    requires Matching(l, ref, rows, cells) && IsLayout(l, ref.cellOf, cells, ref.vectors)
    requires forall g :: 0 <= g < rows ==> ref.labelsValid[g]
    ensures CellsGood(l, ref, rows, cells, cells)
    ensures forall seen :: SeenBelow(l, rows, seen, rows) ==> IdsGood(l, rows, seen, rows)
  {
    CellsAreClean(l, ref, rows, cells);
    forall seen | SeenBelow(l, rows, seen, rows) ensures IdsGood(l, rows, seen, rows) {
      IdsAreClean(l, ref, rows, cells, seen);
    }
  }

  lemma IdsAreClean<V>(l: Layout<V>, ref: Reference<V>, rows: nat, cells: nat, seen: seq<bool>)
    requires Matching(l, ref, rows, cells) && IsLayout(l, ref.cellOf, cells, ref.vectors)
    requires SeenBelow(l, rows, seen, rows)
    ensures IdsGood(l, rows, seen, rows)
  {
    forall h | 0 <= h < rows ensures seen[h] {
      assert l.posToGlobal[l.globalToPos[h]] == h;
    }
  }

  lemma CellsAreClean<V>(l: Layout<V>, ref: Reference<V>, rows: nat, cells: nat)
    requires Matching(l, ref, rows, cells) && IsLayout(l, ref.cellOf, cells, ref.vectors)
    requires forall g :: 0 <= g < rows ==> ref.labelsValid[g]
    ensures CellsGood(l, ref, rows, cells, cells)
  {
    SliceIsCells(l, ref.cellOf, cells, ref.vectors, 0, cells);
    assert rows > 0 ==> (l.offsets[0] <= 0 < l.offsets[cells] <==> 0 <= ref.cellOf[l.posToGlobal[0]] < cells);
    assert rows > 0 ==> (l.offsets[0] <= rows - 1 < l.offsets[cells] <==>
                         0 <= ref.cellOf[l.posToGlobal[rows - 1]] < cells);
    forall c | 0 <= c < cells ensures RangeGood(l, ref, rows, cells, c, l.offsets[c], l.offsets[c + 1]) {
      SliceIsCells(l, ref.cellOf, cells, ref.vectors, c, c + 1);
      forall p | l.offsets[c] <= p < l.offsets[c + 1]
        ensures PositionGood(l, ref, rows, cells, c, l.offsets[c], p)
      {
        assert l.offsets[c] < p ==> Before(ref.cellOf, l.posToGlobal[p - 1], l.posToGlobal[p]);
        assert l.offsets[c] < p ==> l.offsets[c] <= p - 1 < l.offsets[c + 1];
      }
    }
  }

  /** The reference agrees with the layout and every label is in its domain. */
  ghost predicate Correct<V>(l: Layout<V>, ref: Reference<V>, rows: nat, cells: nat) {
    && Matching(l, ref, rows, cells) && IsLayout(l, ref.cellOf, cells, ref.vectors)
    && forall g :: 0 <= g < rows ==> ref.labelsValid[g]
  }

  /** audit_against: passes on the correct layout and on nothing else. */
  method AuditAgainst<V(==)>(l: Layout<V>, ref: Reference<V>, rows: nat, cells: nat) returns (out: Audit)
    ensures out.Passed() <==> Correct(l, ref, rows, cells)
  {
    out := Audit(rows, 0, cells, 0, 0, 0, 0, 0, 0, 0, 0, 0, 0, 0, 0);
    if !(|ref.vectors| == rows && |ref.cellOf| == rows && |ref.labelsValid| == rows && |l.offsets| == cells + 1 &&
         |l.posToGlobal| == rows && |l.globalToPos| == rows && |l.vectors| == rows) {
      out := out.(extentFailures := 1);
      return;
    }
    if l.offsets[0] != 0 || l.offsets[cells] != rows {
      out := out.(offsetFailures := 1);
    }
    hide CellsGood, SeenBelow, IsLayout;
    var seen := new bool[rows](_ => false);
    out := AuditCells(l, ref, rows, cells, seen, out);
    ghost var good := CellsGood(l, ref, rows, cells, cells);
    out := AuditIds(l, rows, seen[..], out, good);
    if good && IdsGood(l, rows, seen[..], rows) {
      CleanIsLayout(l, ref, rows, cells, seen[..]);
    }
    if Correct(l, ref, rows, cells) {
      LayoutIsClean(l, ref, rows, cells);
    }
  }

  method AuditIds<V>(l: Layout<V>, rows: nat, seen: seq<bool>, start: Audit, ghost good: bool) returns (out: Audit)
    requires |l.posToGlobal| == rows && |l.globalToPos| == rows && |seen| == rows
    requires start.FailureCount() == 0 <==> good
    ensures out.rowsExpected == start.rowsExpected && out.cellsExpected == start.cellsExpected
    ensures out.cellsAudited == start.cellsAudited && out.rowsAudited == start.rowsAudited
    ensures out.uniqueIds == start.uniqueIds
    ensures out.FailureCount() == 0 <==> good && IdsGood(l, rows, seen, rows)
  {
    out := start;
    for g := 0 to rows
      invariant out.rowsExpected == start.rowsExpected && out.cellsExpected == start.cellsExpected
      invariant out.cellsAudited == start.cellsAudited && out.rowsAudited == start.rowsAudited
      invariant out.uniqueIds == start.uniqueIds
      invariant out.FailureCount() == 0 <==> good && IdsGood(l, rows, seen, g)
    {
      if !seen[g] {
        out := out.(missingIds := out.missingIds + 1);
      }
      var position := l.globalToPos[g];
      if position >= rows || l.posToGlobal[position] != g {
        out := out.(inverseFailures := out.inverseFailures + 1);
      }
    }
  }

  method AuditCells<V(==)>(l: Layout<V>, ref: Reference<V>, rows: nat, cells: nat, seen: array<bool>, start: Audit)
    returns (out: Audit)
    requires Matching(l, ref, rows, cells) && seen.Length == rows && forall g :: 0 <= g < rows ==> !seen[g]
    requires start.FailureCount() == 0 <==> l.offsets[0] == 0 && l.offsets[cells] == rows
    requires start.uniqueIds == start.rowsAudited == start.cellsAudited == 0
    modifies seen
    ensures out.rowsExpected == start.rowsExpected && out.cellsExpected == start.cellsExpected
    ensures out.cellsAudited == cells
    ensures out.FailureCount() == 0 <==> CellsGood(l, ref, rows, cells, cells)
    ensures CellsGood(l, ref, rows, cells, cells) ==>
      SeenBelow(l, rows, seen[..], rows) && out.uniqueIds == out.rowsAudited == rows
  {
    out := start;
    for cell := 0 to cells
      invariant out.rowsExpected == start.rowsExpected && out.cellsExpected == start.cellsExpected
      invariant out.cellsAudited == cell
      invariant out.FailureCount() == 0 <==> CellsGood(l, ref, rows, cells, cell)
      invariant CellsGood(l, ref, rows, cells, cell) ==>
        SeenBelow(l, rows, seen[..], l.offsets[cell]) && out.uniqueIds == out.rowsAudited == l.offsets[cell]
    {
      out := out.(cellsAudited := out.cellsAudited + 1);
      if l.offsets[cell] > l.offsets[cell + 1] || l.offsets[cell + 1] > rows {
        out := out.(offsetFailures := out.offsetFailures + 1);
        CellsStep(l, ref, rows, cells, cell);
      } else {
        out := AuditCell(l, ref, rows, cells, cell, seen, out);
      }
    }
  }

  lemma CellsStep<V>(l: Layout<V>, ref: Reference<V>, rows: nat, cells: nat, n: nat)
    requires Matching(l, ref, rows, cells) && n < cells
    requires l.offsets[n] > l.offsets[n + 1] || l.offsets[n + 1] > rows
    ensures !CellsGood(l, ref, rows, cells, n + 1)
  {
    assert !RangeGood(l, ref, rows, cells, n, l.offsets[n], l.offsets[n + 1]);
  }
}

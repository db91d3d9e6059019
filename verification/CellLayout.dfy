// The counting-sort layout shared by the predicate cube and the pair-major
// base: rows grouped by cell, ascending global id inside a cell, with offsets
// per cell and two position maps.

module CellLayout {

  /** A built layout; V is the row payload. */
  datatype Layout<V> = Layout(offsets: seq<nat>, posToGlobal: seq<nat>, globalToPos: seq<nat>, vectors: seq<V>)

  /** Order of rows: by cell, then by global id. */
  predicate Before(cellOf: seq<nat>, g: nat, h: nat)
    requires g < |cellOf| && h < |cellOf|
  {
    cellOf[g] < cellOf[h] || (cellOf[g] == cellOf[h] && g < h)
  }

  ghost predicate Extents<V>(l: Layout<V>, rows: nat, cells: nat) {
    |l.offsets| == cells + 1 && |l.posToGlobal| == rows && |l.globalToPos| == rows && |l.vectors| == rows
  }

  /** The two maps are inverse permutations of [0, rows). */
  ghost predicate Inverse<V>(l: Layout<V>, rows: nat)
    requires |l.posToGlobal| == rows && |l.globalToPos| == rows
  {
    && (forall p :: 0 <= p < rows ==> l.posToGlobal[p] < rows && l.globalToPos[l.posToGlobal[p]] == p)
    && (forall g :: 0 <= g < rows ==> l.globalToPos[g] < rows && l.posToGlobal[l.globalToPos[g]] == g)
  }

  /** The unique sorted layout of `cellOf` with payload `vectors`. */
  ghost predicate IsLayout<V>(l: Layout<V>, cellOf: seq<nat>, cells: nat, vectors: seq<V>) {
    && |cellOf| == |vectors|
    && Extents(l, |cellOf|, cells)
    && Inverse(l, |cellOf|)
    && (forall g :: 0 <= g < |cellOf| ==> cellOf[g] < cells)
    && (forall p, q :: 0 <= p < q < |cellOf| ==> Before(cellOf, l.posToGlobal[p], l.posToGlobal[q]))
    && (forall c :: 0 <= c <= cells ==> l.offsets[c] <= |cellOf|)
    && (forall c, p :: 0 <= c <= cells && 0 <= p < |cellOf| ==>
         (p < l.offsets[c] <==> cellOf[l.posToGlobal[p]] < c))
    && (forall p :: 0 <= p < |cellOf| ==> l.vectors[p] == vectors[l.posToGlobal[p]])
  }

  // --- Uniqueness ---

  lemma {:induction false} ClimbsAtLeast(f: seq<nat>, p: nat)
    requires p < |f| && forall i, j :: 0 <= i < j < |f| ==> f[i] < f[j]
    ensures f[p] >= p
  {
    if p > 0 {
      ClimbsAtLeast(f, p - 1);
    }
  }

  /** A strictly increasing map of [0, n) into itself is the identity. */
  lemma {:induction false} StrictlyIncreasingIsIdentity(f: seq<nat>, p: nat)
    requires p < |f|
    requires forall i, j :: 0 <= i < j < |f| ==> f[i] < f[j]
    requires forall i :: 0 <= i < |f| ==> f[i] < |f|
    ensures f[p] == p
    decreases |f| - p
  {
    ClimbsAtLeast(f, p);
    if p + 1 < |f| {
      StrictlyIncreasingIsIdentity(f, p + 1);
    }
  }

  lemma SameOrder<V>(l: Layout<V>, m: Layout<V>, cellOf: seq<nat>, cells: nat, vectors: seq<V>, p: nat)
    requires IsLayout(l, cellOf, cells, vectors) && IsLayout(m, cellOf, cells, vectors)
    requires p < |cellOf|
    ensures l.posToGlobal[p] == m.posToGlobal[p]
  {
    var n := |cellOf|;
    var f := seq(n, i requires 0 <= i < n => m.globalToPos[l.posToGlobal[i]]);
    forall i, j | 0 <= i < j < n ensures f[i] < f[j] {
      var g, h := l.posToGlobal[i], l.posToGlobal[j];
      assert Before(cellOf, g, h);
      assert m.posToGlobal[f[i]] == g && m.posToGlobal[f[j]] == h;
    }
    StrictlyIncreasingIsIdentity(f, p);
  }

  lemma SameOffset<V>(l: Layout<V>, m: Layout<V>, cellOf: seq<nat>, cells: nat, vectors: seq<V>, c: nat)
    requires IsLayout(l, cellOf, cells, vectors) && IsLayout(m, cellOf, cells, vectors)
    requires l.posToGlobal == m.posToGlobal && c <= cells
    ensures l.offsets[c] == m.offsets[c]
  {
    var a, b := l.offsets[c], m.offsets[c];
    assert forall p :: 0 <= p < |cellOf| ==> (p < a <==> cellOf[l.posToGlobal[p]] < c);
    assert forall p :: 0 <= p < |cellOf| ==> (p < b <==> cellOf[l.posToGlobal[p]] < c);
    assert a < |cellOf| ==> (a < b <==> cellOf[l.posToGlobal[a]] < c);
    assert b < |cellOf| ==> (b < a <==> cellOf[l.posToGlobal[b]] < c);
  }

  /** Labels and payload determine every field of the layout. */
  lemma LayoutIsUnique<V>(l: Layout<V>, m: Layout<V>, cellOf: seq<nat>, cells: nat, vectors: seq<V>)
    requires IsLayout(l, cellOf, cells, vectors) && IsLayout(m, cellOf, cells, vectors)
    ensures l == m
  {
    forall p | 0 <= p < |cellOf| ensures l.posToGlobal[p] == m.posToGlobal[p] {
      SameOrder(l, m, cellOf, cells, vectors, p);
    }
    assert l.posToGlobal == m.posToGlobal;
    forall g | 0 <= g < |cellOf| ensures l.globalToPos[g] == m.globalToPos[g] {
      assert m.globalToPos[l.posToGlobal[l.globalToPos[g]]] == l.globalToPos[g];
    }
    assert l.globalToPos == m.globalToPos;
    forall c | 0 <= c <= cells ensures l.offsets[c] == m.offsets[c] {
      SameOffset(l, m, cellOf, cells, vectors, c);
    }
    assert l.offsets == m.offsets;
    assert l.vectors == m.vectors;
  }

  // --- Slices ---

  /** Positions [offsets[c], offsets[d]) hold exactly the rows of cells [c, d). */
  lemma SliceIsCells<V>(l: Layout<V>, cellOf: seq<nat>, cells: nat, vectors: seq<V>, c: nat, d: nat)
    requires IsLayout(l, cellOf, cells, vectors) && c <= d <= cells
    ensures l.offsets[c] <= l.offsets[d] <= |cellOf|
    ensures forall p :: 0 <= p < |cellOf| ==>
      (l.offsets[c] <= p < l.offsets[d] <==> c <= cellOf[l.posToGlobal[p]] < d)
  {
    var p := l.offsets[d];
    assert p < |cellOf| ==> (p < l.offsets[c] <==> cellOf[l.posToGlobal[p]] < c);
    assert p < |cellOf| ==> (p < l.offsets[d] <==> cellOf[l.posToGlobal[p]] < d);
  }

  // --- Construction ---

  /** How many of the labels equal c. */
  function CountIn(labels: seq<nat>, c: nat): (n: nat)
    ensures n <= |labels|
  {
    if labels == [] then 0
    else CountIn(labels[..|labels| - 1], c) + if labels[|labels| - 1] == c then 1 else 0
  }

  /** How many of the labels are below c. */
  function CountBelow(labels: seq<nat>, c: nat): (n: nat)
    ensures n <= |labels|
  {
    if labels == [] then 0
    else CountBelow(labels[..|labels| - 1], c) + if labels[|labels| - 1] < c then 1 else 0
  }

  lemma {:induction false} CountStep(labels: seq<nat>, c: nat)
    ensures CountBelow(labels, c + 1) == CountBelow(labels, c) + CountIn(labels, c)
  {
    if labels != [] {
      CountStep(labels[..|labels| - 1], c);
    }
  }

  lemma {:induction false} CountAll(labels: seq<nat>, c: nat)
    requires forall i :: 0 <= i < |labels| ==> labels[i] < c
    ensures CountBelow(labels, c) == |labels|
  {
    if labels != [] {
      CountAll(labels[..|labels| - 1], c);
    }
  }

  lemma {:induction false} CountNone(labels: seq<nat>)
    ensures CountBelow(labels, 0) == 0
  {
    if labels != [] {
      CountNone(labels[..|labels| - 1]);
    }
  }

  lemma {:induction false} CountGrows(labels: seq<nat>, c: nat, d: nat)
    requires c <= d
    ensures CountBelow(labels, c) <= CountBelow(labels, d)
  {
    if labels != [] {
      CountGrows(labels[..|labels| - 1], c, d);
    }
  }

  lemma CountTake(labels: seq<nat>, g: nat, c: nat)
    requires g < |labels|
    ensures CountIn(labels[..g + 1], c) == CountIn(labels[..g], c) + if labels[g] == c then 1 else 0
  {
    assert labels[..g + 1][..g] == labels[..g];
  }

  lemma {:induction false} CountPrefix(labels: seq<nat>, g: nat, c: nat)
    requires g <= |labels|
    ensures CountIn(labels[..g], c) <= CountIn(labels, c)
    decreases |labels| - g
  {
    if g < |labels| {
      CountTake(labels, g, c);
      CountPrefix(labels, g + 1, c);
    } else {
      assert labels[..g] == labels;
    }
  }

  /** First pass: histogram in slots 1.., then running sums in place. */
  method Offsets(cellOf: seq<nat>, cells: nat) returns (offsets: array<nat>)
    requires forall g :: 0 <= g < |cellOf| ==> cellOf[g] < cells
    ensures fresh(offsets) && offsets.Length == cells + 1
    ensures forall c :: 0 <= c <= cells ==> offsets[c] == CountBelow(cellOf, c)
  {
    offsets := new nat[cells + 1](_ => 0);
    for g := 0 to |cellOf|
      invariant offsets[0] == 0
      invariant forall d :: 1 <= d <= cells ==> offsets[d] == CountIn(cellOf[..g], d - 1)
    {
      forall d: nat | 1 <= d <= cells
        ensures CountIn(cellOf[..g + 1], d - 1) == offsets[d] + if cellOf[g] == d - 1 then 1 else 0
      {
        CountTake(cellOf, g, d - 1);
      }
      offsets[cellOf[g] + 1] := offsets[cellOf[g] + 1] + 1;
    }
    assert cellOf[..|cellOf|] == cellOf;
    CountNone(cellOf);
    for c := 0 to cells
      invariant forall d :: 0 <= d <= c ==> offsets[d] == CountBelow(cellOf, d)
      invariant forall d :: c < d <= cells ==> offsets[d] == CountIn(cellOf, d - 1)
    {
      CountStep(cellOf, c);
      offsets[c + 1] := offsets[c + 1] + offsets[c];
    }
  }

  // The scatter after the first g rows: each cell is filled up to its cursor.

  ghost predicate Cursors(offsets: seq<nat>, cursor: seq<nat>, cellOf: seq<nat>, cells: nat, g: nat) {
    && |offsets| == cells + 1 && |cursor| == cells && g <= |cellOf|
    && (forall h :: 0 <= h < |cellOf| ==> cellOf[h] < cells)
    && (forall c :: 0 <= c <= cells ==> offsets[c] == CountBelow(cellOf, c))
    && (forall c :: 0 <= c < cells ==> cursor[c] == offsets[c] + CountIn(cellOf[..g], c))
  }

  /** Position p is already filled, in cell c. */
  ghost predicate Filled(offsets: seq<nat>, cursor: seq<nat>, c: nat, p: nat) {
    c < |offsets| && c < |cursor| && offsets[c] <= p < cursor[c]
  }

  /** Position p holds an earlier row of cell c and its payload. */
  ghost predicate Holds<V>(l: Layout<V>, cellOf: seq<nat>, vectors: seq<V>, g: nat, c: nat, p: nat)
    requires |l.posToGlobal| == |l.globalToPos| == |l.vectors| == |vectors| == |cellOf|
  {
    p < |cellOf| &&
    var h := l.posToGlobal[p];
    h < g && h < |cellOf| && cellOf[h] == c && l.globalToPos[h] == p && l.vectors[p] == vectors[h]
  }

  ghost predicate Scattered<V>(l: Layout<V>, cursor: seq<nat>, cellOf: seq<nat>, cells: nat, vectors: seq<V>, g: nat)
  {
    && |vectors| == |cellOf| && Extents(l, |cellOf|, cells)
    && Cursors(l.offsets, cursor, cellOf, cells, g)
    && (forall c: nat, p: nat :: Filled(l.offsets, cursor, c, p) ==> Holds(l, cellOf, vectors, g, c, p))
    && (forall c: nat, p: nat, q: nat :: Filled(l.offsets, cursor, c, p) && Filled(l.offsets, cursor, c, q) && p < q ==>
         l.posToGlobal[p] < l.posToGlobal[q])
    && (forall h :: 0 <= h < g ==>
         Filled(l.offsets, cursor, cellOf[h], l.globalToPos[h]) && l.posToGlobal[l.globalToPos[h]] == h)
  }

  /** Cells are consecutive and no cursor leaves its cell. */
  lemma CursorBounds(offsets: seq<nat>, cursor: seq<nat>, cellOf: seq<nat>, cells: nat, g: nat)
    requires Cursors(offsets, cursor, cellOf, cells, g)
    ensures forall c :: 0 <= c < cells ==> cursor[c] <= offsets[c + 1] <= |cellOf|
    ensures forall c, d :: 0 <= c <= d <= cells ==> offsets[c] <= offsets[d]
    ensures g == |cellOf| ==> forall c :: 0 <= c < cells ==> cursor[c] == offsets[c + 1]
    ensures g < |cellOf| ==> cursor[cellOf[g]] < offsets[cellOf[g] + 1]
  {
    assert g == |cellOf| ==> cellOf[..g] == cellOf;
    forall c: nat | c < cells
      ensures cursor[c] <= offsets[c + 1] <= |cellOf|
      ensures g == |cellOf| ==> cursor[c] == offsets[c + 1]
    {
      CountStep(cellOf, c);
      CountPrefix(cellOf, g, c);
    }
    forall c: nat, d: nat | c <= d <= cells ensures offsets[c] <= offsets[d] {
      CountGrows(cellOf, c, d);
    }
    if g < |cellOf| {
      CountStep(cellOf, cellOf[g]);
      CountTake(cellOf, g, cellOf[g]);
      CountPrefix(cellOf, g + 1, cellOf[g]);
    }
  }

  /** Advancing one cursor fills exactly one new position. */
  lemma CursorStep(offsets: seq<nat>, cursor: seq<nat>, cellOf: seq<nat>, cells: nat, g: nat)
    requires g < |cellOf| && Cursors(offsets, cursor, cellOf, cells, g)
    ensures cursor[cellOf[g]] < |cellOf|
    ensures var position := cursor[cellOf[g]];
      var now := cursor[cellOf[g] := position + 1];
      && Cursors(offsets, now, cellOf, cells, g + 1)
      && (forall c: nat, p: nat :: Filled(offsets, now, c, p) <==>
           Filled(offsets, cursor, c, p) || (c == cellOf[g] && p == position))
      && (forall c: nat :: !Filled(offsets, cursor, c, position))
  {
    CursorBounds(offsets, cursor, cellOf, cells, g);
    var cell := cellOf[g];
    var position := cursor[cell];
    var now := cursor[cell := position + 1];
    forall c: nat | c < cells ensures now[c] == offsets[c] + CountIn(cellOf[..g + 1], c) {
      CountTake(cellOf, g, c);
    }
    forall c: nat ensures !Filled(offsets, cursor, c, position) {
      if c < cell {
        assert offsets[c + 1] <= offsets[cell];
      } else if cell < c < cells {
        assert offsets[cell + 1] <= offsets[c];
      }
    }
  }

  function Put<V>(l: Layout<V>, g: nat, position: nat, v: V): Layout<V>
    requires g < |l.globalToPos| && position < |l.posToGlobal| && position < |l.vectors|
  {
    l.(posToGlobal := l.posToGlobal[position := g], globalToPos := l.globalToPos[g := position],
       vectors := l.vectors[position := v])
  }

  lemma ScatterStep<V>(l: Layout<V>, cursor: seq<nat>, cellOf: seq<nat>, cells: nat, vectors: seq<V>, g: nat)
    requires g < |cellOf| && Scattered(l, cursor, cellOf, cells, vectors, g)
    ensures cursor[cellOf[g]] < |cellOf|
    ensures var position := cursor[cellOf[g]];
      Scattered(Put(l, g, position, vectors[g]), cursor[cellOf[g] := position + 1], cellOf, cells, vectors, g + 1)
  {
    CursorStep(l.offsets, cursor, cellOf, cells, g);
    var position := cursor[cellOf[g]];
    var m, now := Put(l, g, position, vectors[g]), cursor[cellOf[g] := position + 1];
    hide Cursors;
    forall c: nat, p: nat | Filled(l.offsets, now, c, p) ensures Holds(m, cellOf, vectors, g + 1, c, p) {
      assert p != position ==> Holds(l, cellOf, vectors, g, c, p);
    }
    forall c: nat, p: nat, q: nat | Filled(l.offsets, now, c, p) && Filled(l.offsets, now, c, q) && p < q
      ensures m.posToGlobal[p] < m.posToGlobal[q]
    {
      assert p != position ==> Holds(l, cellOf, vectors, g, c, p);
      assert q != position ==> Holds(l, cellOf, vectors, g, c, q);
    }
  }

  lemma {:induction false} CellOfPosition(offsets: seq<nat>, p: nat, cells: nat) returns (c: nat)
    requires cells < |offsets| && offsets[0] <= p < offsets[cells]
    ensures c < cells && offsets[c] <= p < offsets[c + 1]
  {
    if offsets[cells - 1] <= p {
      c := cells - 1;
    } else {
      c := CellOfPosition(offsets, p, cells - 1);
    }
  }

  /** Every position of a finished scatter lies in the cell of its row. */
  lemma PositionFilled<V>(l: Layout<V>, cursor: seq<nat>, cellOf: seq<nat>, cells: nat, vectors: seq<V>, p: nat)
    requires Scattered(l, cursor, cellOf, cells, vectors, |cellOf|) && p < |cellOf|
    ensures var h := l.posToGlobal[p];
      && h < |cellOf| && l.globalToPos[h] == p && l.vectors[p] == vectors[h]
      && Filled(l.offsets, cursor, cellOf[h], p)
  {
    CursorBounds(l.offsets, cursor, cellOf, cells, |cellOf|);
    CountNone(cellOf);
    CountAll(cellOf, cells);
    var c := CellOfPosition(l.offsets, p, cells);
    assert Filled(l.offsets, cursor, c, p);
    assert Holds(l, cellOf, vectors, |cellOf|, c, p);
  }

  /** A filled position compares with every offset like its cell does. */
  lemma FilledAgainstOffset(offsets: seq<nat>, cursor: seq<nat>, cellOf: seq<nat>, cells: nat, d: nat, p: nat, c: nat)
    requires Cursors(offsets, cursor, cellOf, cells, |cellOf|) && Filled(offsets, cursor, d, p) && c <= cells
    ensures p < offsets[c] <==> d < c
    ensures offsets[c] <= |cellOf|
  {
    CursorBounds(offsets, cursor, cellOf, cells, |cellOf|);
    if d < c {
      assert offsets[d + 1] <= offsets[c];
    } else {
      assert offsets[c] <= offsets[d];
    }
  }

  lemma ScatterDone<V>(l: Layout<V>, cursor: seq<nat>, cellOf: seq<nat>, cells: nat, vectors: seq<V>)
    requires Scattered(l, cursor, cellOf, cells, vectors, |cellOf|)
    ensures IsLayout(l, cellOf, cells, vectors)
  {
    forall p: nat | p < |cellOf|
      ensures var h := l.posToGlobal[p];
        && h < |cellOf| && l.globalToPos[h] == p && l.vectors[p] == vectors[h]
        && Filled(l.offsets, cursor, cellOf[h], p)
    {
      PositionFilled(l, cursor, cellOf, cells, vectors, p);
    }
    forall c: nat, p: nat | c <= cells && p < |cellOf|
      ensures p < l.offsets[c] <==> cellOf[l.posToGlobal[p]] < c
    {
      FilledAgainstOffset(l.offsets, cursor, cellOf, cells, cellOf[l.posToGlobal[p]], p, c);
    }
    forall p: nat, q: nat | p < q < |cellOf| ensures Before(cellOf, l.posToGlobal[p], l.posToGlobal[q]) {
      var c, d := cellOf[l.posToGlobal[p]], cellOf[l.posToGlobal[q]];
      assert q < l.offsets[c] <==> d < c;
      assert p < l.offsets[c] <==> c < c;
      assert Filled(l.offsets, cursor, c, p) && Filled(l.offsets, cursor, d, q);
    }
    CursorBounds(l.offsets, cursor, cellOf, cells, |cellOf|);
    CountAll(cellOf, cells);
  }

  /** The constructor: histogram, running sums, stable scatter by cursor. */
  method Build<V(0)>(cellOf: seq<nat>, cells: nat, vectors: seq<V>) returns (layout: Layout<V>)
    requires |cellOf| == |vectors| && forall g :: 0 <= g < |cellOf| ==> cellOf[g] < cells
    ensures IsLayout(layout, cellOf, cells, vectors)
  {
    hide IsLayout, Scattered;
    var rows := |cellOf|;
    var offsets := Offsets(cellOf, cells);
    var posToGlobal := new nat[rows];
    var globalToPos := new nat[rows];
    var vectorsByPos := new V[rows];
    var cursor := new nat[cells];
    for c := 0 to cells
      invariant forall d :: 0 <= d <= cells ==> offsets[d] == CountBelow(cellOf, d)
      invariant forall d :: 0 <= d < c ==> cursor[d] == offsets[d]
    {
      cursor[c] := offsets[c];
    }
    ghost var l := Layout(offsets[..], posToGlobal[..], globalToPos[..], vectorsByPos[..]);
    ScatterStart(l, cursor[..], cellOf, cells, vectors);
    for g := 0 to rows
      invariant l.offsets == offsets[..] && l.posToGlobal == posToGlobal[..]
      invariant l.globalToPos == globalToPos[..] && l.vectors == vectorsByPos[..]
      invariant Scattered(l, cursor[..], cellOf, cells, vectors, g)
    {
      ScatterStep(l, cursor[..], cellOf, cells, vectors, g);
      var cell := cellOf[g];
      var position := cursor[cell];
      cursor[cell] := position + 1;
      posToGlobal[position] := g;
      globalToPos[g] := position;
      vectorsByPos[position] := vectors[g];
      l := Put(l, g, position, vectors[g]);
    }
    ScatterDone(l, cursor[..], cellOf, cells, vectors);
    layout := Layout(offsets[..], posToGlobal[..], globalToPos[..], vectorsByPos[..]);
  }

  lemma ScatterStart<V>(l: Layout<V>, cursor: seq<nat>, cellOf: seq<nat>, cells: nat, vectors: seq<V>)
    requires |vectors| == |cellOf| && Extents(l, |cellOf|, cells)
    requires |cursor| == cells && forall g :: 0 <= g < |cellOf| ==> cellOf[g] < cells
    requires forall c :: 0 <= c <= cells ==> l.offsets[c] == CountBelow(cellOf, c)
    requires forall c :: 0 <= c < cells ==> cursor[c] == l.offsets[c]
    ensures Scattered(l, cursor, cellOf, cells, vectors, 0)
  {
    assert forall c: nat, p: nat :: !Filled(l.offsets, cursor, c, p);
  }
}

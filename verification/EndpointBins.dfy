// Endpoint bins of a numeric column: a value's bin is found by binary search
// over the inner edges.

module EndpointBins {
  import opened Options

  /** Edges are numbers or infinite; values are numbers. */
  datatype Edge = MinusInfinity | Finite(x: real) | PlusInfinity

  predicate EdgeLe(a: Edge, b: Edge) {
    a.MinusInfinity? || b.PlusInfinity? || (a.Finite? && b.Finite? && a.x <= b.x)
  }

  /** The edge is not above the value. */
  predicate AtMost(e: Edge, v: real) {
    e.MinusInfinity? || (e.Finite? && e.x <= v)
  }

  ghost predicate SortedEdges(edges: seq<Edge>) {
    forall i, j :: 0 <= i < j < |edges| ==> EdgeLe(edges[i], edges[j])
  }

  const MAX_EDGES: nat := 257

  /** The endpoint contract: sorted, infinite at both ends. */
  ghost predicate EndpointEdges(edges: seq<Edge>) {
    && 2 <= |edges| <= MAX_EDGES
    && edges[0].MinusInfinity? && edges[|edges| - 1].PlusInfinity?
    && SortedEdges(edges)
  }

  /** Bin b is the half-open interval between its two edges. */
  predicate InBin(edges: seq<Edge>, v: real, b: nat) {
    b + 1 < |edges| && AtMost(edges[b], v) && !AtMost(edges[b + 1], v)
  }

  lemma AtMostFalls(edges: seq<Edge>, v: real, i: nat, j: nat)
    requires SortedEdges(edges) && i <= j < |edges|
    ensures AtMost(edges[j], v) ==> AtMost(edges[i], v)
  {
  }

  /** std::upper_bound over edges[first..last]. */
  method UpperBound(edges: seq<Edge>, first: nat, last: nat, v: real) returns (at: nat)
    requires SortedEdges(edges) && first <= last <= |edges|
    ensures first <= at <= last
    ensures forall i :: first <= i < at ==> AtMost(edges[i], v)
    ensures forall i :: at <= i < last ==> !AtMost(edges[i], v)
  {
    at := first;
    var length := last - first;
    while length > 0
      invariant first <= at <= at + length <= last
      invariant forall i :: first <= i < at ==> AtMost(edges[i], v)
      invariant forall i :: at + length <= i < last ==> !AtMost(edges[i], v)
    {
      var half := length / 2;
      var middle := at + half;
      if AtMost(edges[middle], v) {
        forall i | at <= i <= middle ensures AtMost(edges[i], v) {
          AtMostFalls(edges, v, i, middle);
        }
        at := middle + 1;
        length := length - half - 1;
      } else {
        forall i | middle <= i < at + length ensures !AtMost(edges[i], v) {
          AtMostFalls(edges, v, middle, i);
        }
        length := half;
      }
    }
  }

  /** Number of the bin of a value, or of none. */
  datatype Cell = Missing | Value(x: real)

  /** What a column's bins must be: -1 where there is no value, else the value's bin. */
  ghost predicate Binned(edges: seq<Edge>, cells: seq<Cell>, bins: seq<int>) {
    |bins| == |cells| && forall r :: 0 <= r < |cells| ==>
      match cells[r]
      case Missing => bins[r] == -1
      case Value(x) => bins[r] >= 0 && InBin(edges, x, bins[r])
  }

  method BinColumn(edges: seq<Edge>, cells: seq<Cell>) returns (bins: array<int>)
    requires EndpointEdges(edges)
    ensures fresh(bins) && Binned(edges, cells, bins[..])
  {
    bins := new int[|cells|](_ => -1);
    for r := 0 to |cells|
      invariant Binned(edges, cells[..r], bins[..r])
      invariant forall i :: r <= i < |cells| ==> bins[i] == -1
    {
      if cells[r].Value? {
        var at := UpperBound(edges, 1, |edges| - 1, cells[r].x);
        bins[r] := at - 1;
      }
      assert bins[..r + 1] == bins[..r] + [bins[r]];
    }
    assert cells[..|cells|] == cells && bins[..|cells|] == bins[..];
  }

  method CheckEdges(edges: seq<Edge>) returns (ok: bool)
    ensures ok <==> EndpointEdges(edges)
  {
    if |edges| < 2 || |edges| > MAX_EDGES || !edges[0].MinusInfinity? || !edges[|edges| - 1].PlusInfinity? {
      return false;
    }
    for i := 1 to |edges|
      invariant SortedEdges(edges[..i])
    {
      if !EdgeLe(edges[i - 1], edges[i]) {
        return false;
      }
      SortedGrows(edges, i);
    }
    assert edges[..|edges|] == edges;
    return true;
  }

  lemma SortedGrows(edges: seq<Edge>, i: nat)
    requires 0 < i < |edges| && SortedEdges(edges[..i]) && EdgeLe(edges[i - 1], edges[i])
    ensures SortedEdges(edges[..i + 1])
  {
    forall k | 0 <= k < i ensures EdgeLe(edges[k], edges[i]) {
      if k < i - 1 {
        assert EdgeLe(edges[..i][k], edges[..i][i - 1]);
      }
    }
  }

  datatype Double = Number(x: real) | NotFinite

  /** A stored row: its validity byte and its value. */
  datatype Entry = Entry(valid: nat, value: Double)

  predicate ValidEntry(e: Entry) {
    e.valid <= 1 && (e.valid == 1 ==> e.value.Number?)
  }

  predicate ValidEntries(entries: seq<Entry>) {
    forall r :: 0 <= r < |entries| ==> ValidEntry(entries[r])
  }

  /** Only a valid row has a value. */
  function CellsOf(entries: seq<Entry>): (cells: seq<Cell>)
    requires ValidEntries(entries)
    ensures |cells| == |entries|
  {
    seq(|entries|, r requires 0 <= r < |entries| && ValidEntry(entries[r]) =>
      if entries[r].valid == 0 then Missing else Value(entries[r].value.x))
  }

  /** A column is refused exactly when its edges break the endpoint contract, a
      validity byte is above one, or a valid value is not finite. */
  method ReadNumeric(edges: seq<Edge>, entries: seq<Entry>) returns (result: Option<seq<int>>)
    ensures result.Some? <==> EndpointEdges(edges) && ValidEntries(entries)
    ensures result.Some? ==> Binned(edges, CellsOf(entries), result.value)
    ensures result.Some? <==>
      && 2 <= |edges| <= 257 && edges[0].MinusInfinity? && edges[|edges| - 1].PlusInfinity?
      && (forall i, j :: 0 <= i < j < |edges| && edges[i].Finite? && edges[j].Finite? ==> edges[i].x <= edges[j].x)
      && (forall i, j :: 0 <= i < j < |edges| && edges[j].MinusInfinity? ==> edges[i].MinusInfinity?)
      && (forall i, j :: 0 <= i < j < |edges| && edges[i].PlusInfinity? ==> edges[j].PlusInfinity?)
      && (forall r :: 0 <= r < |entries| ==>
           entries[r].valid == 0 || (entries[r].valid == 1 && entries[r].value.Number?))
    ensures result.Some? ==> |result.value| == |entries| && forall r :: 0 <= r < |entries| ==>
      if entries[r].valid == 0 then result.value[r] == -1 else 0 <= result.value[r] < |edges| - 1
    ensures result.Some? ==> forall r :: 0 <= r < |entries| && entries[r].valid == 1 ==>
      var low, high := edges[result.value[r]], edges[result.value[r] + 1];
      && (low.MinusInfinity? || (low.Finite? && low.x <= entries[r].value.x))
      && (high.PlusInfinity? || (high.Finite? && entries[r].value.x < high.x))
  {
    EdgesMean(edges);
    EntriesMean(entries);
    var ok := CheckEdges(edges);
    if !ok || !ValidEntries(entries) {
      return None;
    }
    var bins := BinColumn(edges, CellsOf(entries));
    forall r | 0 <= r < |entries| {
      BinMeans(edges, entries, bins[..], r);
    }
    return Some(bins[..]);
  }

  lemma EdgesMean(edges: seq<Edge>)
    ensures EndpointEdges(edges) <==>
      && 2 <= |edges| <= 257 && edges[0].MinusInfinity? && edges[|edges| - 1].PlusInfinity?
      && (forall i, j :: 0 <= i < j < |edges| && edges[i].Finite? && edges[j].Finite? ==> edges[i].x <= edges[j].x)
      && (forall i, j :: 0 <= i < j < |edges| && edges[j].MinusInfinity? ==> edges[i].MinusInfinity?)
      && (forall i, j :: 0 <= i < j < |edges| && edges[i].PlusInfinity? ==> edges[j].PlusInfinity?)
  {
  }

  lemma EntriesMean(entries: seq<Entry>)
    ensures ValidEntries(entries) <==> forall r :: 0 <= r < |entries| ==>
      entries[r].valid == 0 || (entries[r].valid == 1 && entries[r].value.Number?)
  {
    assert forall r :: 0 <= r < |entries| ==>
      (ValidEntry(entries[r]) <==> entries[r].valid == 0 || (entries[r].valid == 1 && entries[r].value.Number?));
  }

  lemma BinMeans(edges: seq<Edge>, entries: seq<Entry>, bins: seq<int>, r: nat)
    requires EndpointEdges(edges) && ValidEntries(entries) && Binned(edges, CellsOf(entries), bins) && r < |entries|
    ensures if entries[r].valid == 0 then bins[r] == -1 else 0 <= bins[r] < |edges| - 1
    ensures entries[r].valid == 1 ==>
      var low, high := edges[bins[r]], edges[bins[r] + 1];
      && (low.MinusInfinity? || (low.Finite? && low.x <= entries[r].value.x))
      && (high.PlusInfinity? || (high.Finite? && entries[r].value.x < high.x))
  {
    assert ValidEntry(entries[r]);
    assert CellsOf(entries)[r] == if entries[r].valid == 0 then Missing else Value(entries[r].value.x);
  }

  /** A value has one bin. */
  lemma BinIsUnique(edges: seq<Edge>, v: real, a: nat, b: nat)
    requires SortedEdges(edges) && InBin(edges, v, a) && InBin(edges, v, b)
    ensures a == b
  {
    BinsDoNotOverlap(edges, v, a, b);
    BinsDoNotOverlap(edges, v, b, a);
  }

  lemma BinsDoNotOverlap(edges: seq<Edge>, v: real, a: nat, b: nat)
    requires SortedEdges(edges) && InBin(edges, v, a)
    ensures a < b ==> !InBin(edges, v, b)
  {
    if a < b < |edges| {
      AtMostFalls(edges, v, a + 1, b);
    }
  }

  /** A bin lies in lo..hi exactly when the value lies between those edges. */
  lemma BinsAreIntervals(edges: seq<Edge>, v: real, b: nat, lo: nat, hi: nat)
    requires EndpointEdges(edges) && InBin(edges, v, b)
    requires lo < |edges| && hi < |edges|
    ensures lo <= b < hi <==> AtMost(edges[lo], v) && !AtMost(edges[hi], v)
  {
    if lo <= b {
      AtMostFalls(edges, v, lo, b);
    } else {
      AtMostFalls(edges, v, b + 1, lo);
    }
    if b < hi {
      AtMostFalls(edges, v, b + 1, hi);
    } else {
      AtMostFalls(edges, v, hi, b);
    }
  }

  /** Every value has a bin. */
  lemma EveryValueHasABin(edges: seq<Edge>, v: real) returns (b: nat)
    requires EndpointEdges(edges)
    ensures InBin(edges, v, b)
  {
    b := 0;
    while AtMost(edges[b + 1], v)
      invariant b + 1 < |edges| && AtMost(edges[b], v)
      decreases |edges| - b
    {
      b := b + 1;
    }
  }
}

// The ordered range query: two filtered boundary blocks and an unfiltered
// cover of the blocks between them.  Rows are packed by block.

module OrderedQuery {
  import opened Divisibility
  import opened OrderedCover
  import opened Ranking

  /** Packed rows: offsets per block, packed position to row id, attribute per row. */
  datatype Store = Store(width: nat, offsets: seq<nat>, packedIds: seq<nat>, attrs: seq<nat>)

  function Blocks(s: Store): nat
    requires s.offsets != []
  {
    |s.offsets| - 1
  }

  ghost predicate ValidStore(s: Store) {
    && s.width > 0 && |s.offsets| > 0
    && s.offsets[0] == 0 && s.offsets[Blocks(s)] == |s.packedIds|
    && (forall b, c :: 0 <= b <= c <= Blocks(s) ==> s.offsets[b] <= s.offsets[c])
    && (forall p :: 0 <= p < |s.packedIds| ==> s.packedIds[p] < |s.attrs|)
    && (forall b, p :: 0 <= b < Blocks(s) && s.offsets[b] <= p < s.offsets[b + 1] ==>
         s.attrs[s.packedIds[p]] / s.width == b)
  }

  datatype Range = Range(lo: nat, hi: nat)

  predicate InRange(s: Store, r: Range, g: nat)
    requires g < |s.attrs|
  {
    r.lo <= s.attrs[g] <= r.hi
  }

  /** One search of the plan: a node of the hierarchy, filtered or not. */
  datatype Task = Task(node: Node, full: bool)

  /** Covered nodes of consecutive widths. */
  function Nodes(widths: seq<nat>, first: nat): (tasks: seq<Task>)
    ensures |tasks| == |widths|
  {
    if widths == [] then [] else [Task(Node(first, first + widths[0]), true)] + Nodes(widths[1..], first + widths[0])
  }

  /** One boundary block, or two with a greedy cover between them. */
  ghost predicate IsPlan(s: Store, r: Range, tasks: seq<Task>, widths: seq<nat>)
    requires s.width > 0
  {
    var first, last := r.lo / s.width, r.hi / s.width;
    if first == last then tasks == [Task(Node(first, first + 1), false)]
    else
      && Greedy(widths, first + 1, last)
      && tasks == [Task(Node(first, first + 1), false)] + Nodes(widths, first + 1) + [Task(Node(last, last + 1), false)]
  }

  /** query: the tasks in the order they are searched. */
  method Plan(s: Store, r: Range) returns (tasks: seq<Task>)
    requires s.width > 0
    ensures exists widths: seq<nat> :: IsPlan(s, r, tasks, widths)
  {
    var first, last := r.lo / s.width, r.hi / s.width;
    if first == last {
      tasks := [Task(Node(first, first + 1), false)];
      assert IsPlan(s, r, tasks, []);
    } else {
      var cover := Cover(first + 1, last);
      tasks := [Task(Node(first, first + 1), false)] + Nodes(cover, first + 1) + [Task(Node(last, last + 1), false)];
      assert IsPlan(s, r, tasks, cover);
    }
  }

  // --- What a plan reaches ---

  /** Row ids of packed positions [p, q). */
  function RowsBetween(s: Store, p: nat, q: nat): seq<nat>
    requires p <= q <= |s.packedIds|
  {
    s.packedIds[p..q]
  }

  function Filter(s: Store, r: Range, ids: seq<nat>): (kept: seq<nat>)
    requires forall i :: 0 <= i < |ids| ==> ids[i] < |s.attrs|
  {
    if ids == [] then []
    else (if InRange(s, r, ids[0]) then [ids[0]] else []) + Filter(s, r, ids[1..])
  }

  ghost predicate InStore(s: Store, n: Node) {
    s.offsets != [] && n.first <= n.end <= Blocks(s)
  }

  function Slice(s: Store, n: Node): (ids: seq<nat>)
    requires ValidStore(s) && InStore(s, n)
    ensures forall i :: 0 <= i < |ids| ==> ids[i] < |s.attrs|
  {
    RowsBetween(s, s.offsets[n.first], s.offsets[n.end])
  }

  /** Rows a task returns when its graph search enumerates the whole segment. */
  function Reach(s: Store, r: Range, t: Task): seq<nat>
    requires ValidStore(s) && InStore(s, t.node)
  {
    if t.full then Slice(s, t.node) else Filter(s, r, Slice(s, t.node))
  }

  ghost predicate PlanInStore(s: Store, tasks: seq<Task>) {
    forall i :: 0 <= i < |tasks| ==> InStore(s, tasks[i].node)
  }

  function ReachAll(s: Store, r: Range, tasks: seq<Task>): seq<nat>
    requires ValidStore(s) && PlanInStore(s, tasks)
  {
    if tasks == [] then [] else Reach(s, r, tasks[0]) + ReachAll(s, r, tasks[1..])
  }

  lemma {:induction false} FilterConcat(s: Store, r: Range, x: seq<nat>, y: seq<nat>)
    requires forall i :: 0 <= i < |x| ==> x[i] < |s.attrs|
    requires forall i :: 0 <= i < |y| ==> y[i] < |s.attrs|
    ensures forall i :: 0 <= i < |x + y| ==> (x + y)[i] < |s.attrs|
    ensures Filter(s, r, x + y) == Filter(s, r, x) + Filter(s, r, y)
  {
    if x == [] {
      assert x + y == y;
    } else {
      FilterConcat(s, r, x[1..], y);
      assert (x + y)[1..] == x[1..] + y;
    }
  }

  lemma {:induction false} FilterAll(s: Store, r: Range, ids: seq<nat>)
    requires forall i :: 0 <= i < |ids| ==> ids[i] < |s.attrs| && InRange(s, r, ids[i])
    ensures Filter(s, r, ids) == ids
  {
    if ids != [] {
      FilterAll(s, r, ids[1..]);
    }
  }

  lemma {:induction false} FilterNone(s: Store, r: Range, ids: seq<nat>)
    requires forall i :: 0 <= i < |ids| ==> ids[i] < |s.attrs| && !InRange(s, r, ids[i])
    ensures Filter(s, r, ids) == []
  {
    if ids != [] {
      FilterNone(s, r, ids[1..]);
    }
  }

  /** Which block a packed position lies in. */
  lemma {:induction false} BlockOf(s: Store, p: nat, blocks: nat) returns (b: nat)
    requires ValidStore(s) && blocks <= Blocks(s) && p < s.offsets[blocks]
    ensures b < blocks && s.offsets[b] <= p < s.offsets[b + 1]
  {
    if s.offsets[blocks - 1] <= p {
      b := blocks - 1;
    } else {
      b := BlockOf(s, p, blocks - 1);
    }
  }

  /** Rows of blocks [first, end) have attributes in [first * width, end * width). */
  lemma SliceAttributes(s: Store, n: Node)
    requires ValidStore(s) && InStore(s, n)
    ensures forall i :: 0 <= i < |Slice(s, n)| ==>
      n.first <= s.attrs[Slice(s, n)[i]] / s.width < n.end
  {
    forall i | 0 <= i < |Slice(s, n)|
      ensures n.first <= s.attrs[Slice(s, n)[i]] / s.width < n.end
    {
      var p := s.offsets[n.first] + i;
      var b := BlockOf(s, p, n.end);
      assert Slice(s, n)[i] == s.packedIds[p];
    }
  }

  lemma QuotientOrder(a: nat, b: nat, w: nat)
    requires w > 0
    ensures a / w < b / w ==> a < b
  {
    Division(a, w);
    Division(b, w);
    if a / w < b / w {
      Apart(w, a / w, b / w);
    }
  }

  /** Interior blocks lie inside the range, so not filtering them is filtering them. */
  lemma InteriorIsFiltered(s: Store, r: Range, n: Node)
    requires ValidStore(s) && InStore(s, n)
    requires r.lo / s.width < n.first && n.end <= r.hi / s.width
    ensures Filter(s, r, Slice(s, n)) == Slice(s, n)
  {
    SliceAttributes(s, n);
    forall i | 0 <= i < |Slice(s, n)| ensures InRange(s, r, Slice(s, n)[i]) {
      QuotientOrder(r.lo, s.attrs[Slice(s, n)[i]], s.width);
      QuotientOrder(s.attrs[Slice(s, n)[i]], r.hi, s.width);
    }
    FilterAll(s, r, Slice(s, n));
  }

  /** Blocks outside the range contribute nothing. */
  lemma ExteriorIsEmpty(s: Store, r: Range, n: Node)
    requires ValidStore(s) && InStore(s, n)
    requires n.end <= r.lo / s.width || r.hi / s.width < n.first
    ensures Filter(s, r, Slice(s, n)) == []
  {
    SliceAttributes(s, n);
    forall i | 0 <= i < |Slice(s, n)| ensures !InRange(s, r, Slice(s, n)[i]) {
      QuotientOrder(s.attrs[Slice(s, n)[i]], r.lo, s.width);
      QuotientOrder(r.hi, s.attrs[Slice(s, n)[i]], s.width);
    }
    FilterNone(s, r, Slice(s, n));
  }

  lemma SliceConcat(s: Store, a: nat, b: nat, c: nat)
    requires ValidStore(s) && a <= b <= c <= Blocks(s)
    ensures Slice(s, Node(a, c)) == Slice(s, Node(a, b)) + Slice(s, Node(b, c))
  {
    assert s.offsets[a] <= s.offsets[b] <= s.offsets[c];
  }

  lemma {:induction false} CoverReaches(s: Store, r: Range, widths: seq<nat>, first: nat, last: nat)
    requires ValidStore(s) && Tiles(widths, first, last) && last <= Blocks(s)
    ensures first <= last && PlanInStore(s, Nodes(widths, first))
    ensures ReachAll(s, r, Nodes(widths, first)) == Slice(s, Node(first, last))
    decreases |widths|
  {
    if widths != [] {
      CoverReaches(s, r, widths[1..], first + widths[0], last);
      SliceConcat(s, first, first + widths[0], last);
      assert Nodes(widths, first)[1..] == Nodes(widths[1..], first + widths[0]);
    }
  }

  lemma {:induction false} ReachConcat(s: Store, r: Range, x: seq<Task>, y: seq<Task>)
    requires ValidStore(s) && PlanInStore(s, x) && PlanInStore(s, y)
    ensures PlanInStore(s, x + y) && ReachAll(s, r, x + y) == ReachAll(s, r, x) + ReachAll(s, r, y)
  {
    hide ValidStore, Reach, Slice;
    if x == [] {
      assert x + y == y;
    } else {
      ReachConcat(s, r, x[1..], y);
      assert (x + y)[1..] == x[1..] + y && (x + y)[0] == x[0];
    }
  }

  lemma ReachOne(s: Store, r: Range, t: Task)
    requires ValidStore(s) && InStore(s, t.node)
    ensures PlanInStore(s, [t]) && ReachAll(s, r, [t]) == Reach(s, r, t)
  {
    assert [t][1..] == [];
  }

  /** Filtering everything between two blocks is filtering the whole store. */
  lemma WholeStore(s: Store, r: Range, first: nat, last: nat)
    requires ValidStore(s) && r.lo / s.width == first && r.hi / s.width == last && first <= last < Blocks(s)
    ensures Filter(s, r, s.packedIds) == Filter(s, r, Slice(s, Node(first, last + 1)))
  {
    hide Filter;
    var before, inside, after := Node(0, first), Node(first, last + 1), Node(last + 1, Blocks(s));
    ExteriorIsEmpty(s, r, before);
    ExteriorIsEmpty(s, r, after);
    SliceConcat(s, 0, first, last + 1);
    SliceConcat(s, 0, last + 1, Blocks(s));
    FilterConcat(s, r, Slice(s, before), Slice(s, inside));
    FilterConcat(s, r, Slice(s, Node(0, last + 1)), Slice(s, after));
    assert Slice(s, Node(0, Blocks(s))) == s.packedIds;
  }

  /** The plan reaches exactly the rows of the closed range, each once, in packed order. */
  lemma PlanReachesRange(s: Store, r: Range, tasks: seq<Task>, widths: seq<nat>)
    requires ValidStore(s) && r.lo <= r.hi && r.hi / s.width < Blocks(s)
    requires IsPlan(s, r, tasks, widths)
    ensures PlanInStore(s, tasks)
    ensures ReachAll(s, r, tasks) == Filter(s, r, s.packedIds)
  {
    hide ReachAll, Filter, ValidStore, Greedy, Tiles;
    StoreWidth(s);
    var first, last := r.lo / s.width, r.hi / s.width;
    QuotientOrder(r.hi, r.lo, s.width);
    WholeStore(s, r, first, last);
    if first == last {
      ReachOne(s, r, Task(Node(first, first + 1), false));
    } else {
      GreedyTiles(widths, first + 1, last);
      SpanReaches(s, r, widths, first, last);
    }
  }

  lemma SpanReaches(s: Store, r: Range, widths: seq<nat>, first: nat, last: nat)
    requires ValidStore(s) && r.lo / s.width == first < last == r.hi / s.width < Blocks(s)
    requires Tiles(widths, first + 1, last)
    ensures var tasks := [Task(Node(first, first + 1), false)] + Nodes(widths, first + 1) +
      [Task(Node(last, last + 1), false)];
      PlanInStore(s, tasks) && ReachAll(s, r, tasks) == Filter(s, r, Slice(s, Node(first, last + 1)))
  {
    hide ReachAll, Filter, Tiles, ValidStore;
    StoreWidth(s);
    var left, right := Task(Node(first, first + 1), false), Task(Node(last, last + 1), false);
    var middle := Node(first + 1, last);
    ReachOne(s, r, left);
    ReachOne(s, r, right);
    CoverReaches(s, r, widths, first + 1, last);
    ReachConcat(s, r, [left], Nodes(widths, first + 1));
    ReachConcat(s, r, [left] + Nodes(widths, first + 1), [right]);
    InteriorIsFiltered(s, r, middle);
    SliceConcat(s, first, first + 1, last);
    SliceConcat(s, first, last, last + 1);
    FilterConcat(s, r, Slice(s, left.node), Slice(s, middle));
    FilterConcat(s, r, Slice(s, Node(first, last)), Slice(s, right.node));
  }

  lemma StoreWidth(s: Store)
    requires ValidStore(s)
    ensures s.width > 0 && s.offsets != []
  {
  }

  /** Every node of the plan exists in the hierarchy. */
  lemma {:induction false} CoverInHierarchy(widths: seq<nat>, first: nat, last: nat, blocks: nat, maxWidth: nat, i: nat)
    requires Tiles(widths, first, last) && last <= blocks < 2 * maxWidth && IsPow2(maxWidth)
    requires i < |widths|
    ensures InHierarchy(Nodes(widths, first)[i].node, blocks, maxWidth)
    decreases |widths|
  {
    TilesBound(widths, first, last);
    if widths[0] > maxWidth {
      Pow2Order(maxWidth, widths[0]);
    }
    if i > 0 {
      CoverInHierarchy(widths[1..], first + widths[0], last, blocks, maxWidth, i - 1);
    }
  }

  lemma {:induction false} TilesBound(widths: seq<nat>, first: nat, last: nat)
    requires Tiles(widths, first, last)
    ensures first <= last
    decreases |widths|
  {
    if widths != [] {
      TilesBound(widths[1..], first + widths[0], last);
    }
  }

  /** A search may return any rows of its segment; what the plan admits is still in range. */
  lemma AnySearchStaysInRange(s: Store, r: Range, t: Task, found: seq<nat>)
    requires ValidStore(s) && InStore(s, t.node) && (forall i :: 0 <= i < |found| ==> found[i] in Slice(s, t.node))
    requires t.full ==> r.lo / s.width < t.node.first && t.node.end <= r.hi / s.width
    ensures forall i :: 0 <= i < |found| ==> found[i] < |s.attrs|
    ensures forall g :: g in (if t.full then found else Filter(s, r, found)) ==> g < |s.attrs| && InRange(s, r, g)
  {
    forall i | 0 <= i < |found| ensures found[i] < |s.attrs| && (t.full ==> InRange(s, r, found[i])) {
      var j :| 0 <= j < |Slice(s, t.node)| && Slice(s, t.node)[j] == found[i];
      SliceAttributes(s, t.node);
      QuotientOrder(r.lo, s.attrs[found[i]], s.width);
      QuotientOrder(s.attrs[found[i]], r.hi, s.width);
    }
    FilterSound(s, r, found);
  }

  lemma {:induction false} FilterSound(s: Store, r: Range, ids: seq<nat>)
    requires forall i :: 0 <= i < |ids| ==> ids[i] < |s.attrs|
    ensures forall g :: g in Filter(s, r, ids) <==> g in ids && InRange(s, r, g)
  {
    if ids != [] {
      FilterSound(s, r, ids[1..]);
      assert ids == [ids[0]] + ids[1..];
    }
  }

  // --- The whole query ---

  function HitsOf(distance: nat -> int, ids: seq<nat>): (hits: seq<Hit>)
    ensures |hits| == |ids|
  {
    seq(|ids|, i requires 0 <= i < |ids| => Hit(distance(ids[i]), ids[i]))
  }

  /** finish: the k best ids, padded with -1 when there are fewer. */
  function Finish(merged: seq<Hit>, k: nat): (ids: seq<int>)
    ensures |ids| == k
  {
    TopKKeeps(merged, k);
    SortLength(merged);
    var best := Ids(TopK(merged, k));
    best + seq(k - |best|, _ => -1)
  }

  /** query over exhaustive segment searches: the exact answer over the closed range. */
  method Query(s: Store, r: Range, distance: nat -> int, k: nat) returns (ids: seq<int>)
    requires ValidStore(s) && r.lo <= r.hi && r.hi / s.width < Blocks(s)
    ensures ids == Finish(HitsOf(distance, Filter(s, r, s.packedIds)), k)
  {
    hide Filter, Slice, ValidStore, IsPlan;
    StoreWidth(s);
    var tasks := Plan(s, r);
    ghost var widths: seq<nat> :| IsPlan(s, r, tasks, widths);
    PlanReachesRange(s, r, tasks, widths);
    var merged: seq<Hit> := [];
    for i := 0 to |tasks|
      invariant PlanInStore(s, tasks[..i]) && merged == HitsOf(distance, ReachAll(s, r, tasks[..i]))
    {
      ReachOne(s, r, tasks[i]);
      ReachConcat(s, r, tasks[..i], [tasks[i]]);
      assert tasks[..i + 1] == tasks[..i] + [tasks[i]];
      merged := merged + HitsOf(distance, Reach(s, r, tasks[i]));
    }
    assert tasks[..|tasks|] == tasks;
    ids := Finish(merged, k);
  }

  lemma OnePlaceOn(rest: seq<nat>) returns (later: seq<nat>)
    ensures |later| == |rest| && forall i :: 0 <= i < |rest| ==> later[i] == rest[i] + 1
    ensures forall p: nat :: p in later <==> p > 0 && p - 1 in rest
  {
    later := seq(|rest|, i requires 0 <= i < |rest| => rest[i] + 1);
    forall p: nat | p > 0 && p - 1 in rest ensures p in later {
      var i :| 0 <= i < |rest| && rest[i] == p - 1;
      assert later[i] == p;
    }
  }

  /** `places` are the places of `ids` in range, each once and in order; `kept` is what stands there. */
  ghost predicate PlacesIn(s: Store, r: Range, ids: seq<nat>, kept: seq<nat>, places: seq<nat>) {
    && |places| == |kept| && (forall i :: 0 <= i < |ids| ==> ids[i] < |s.attrs|)
    && (forall i :: 0 <= i < |places| ==> places[i] < |ids| && kept[i] == ids[places[i]])
    && (forall i, j :: 0 <= i < j < |places| ==> places[i] < places[j])
    && (forall p: nat :: p in places <==> p < |ids| && r.lo <= s.attrs[ids[p]] <= r.hi)
  }

  lemma LaterPlaces(s: Store, r: Range, ids: seq<nat>, kept: seq<nat>, rest: seq<nat>) returns (later: seq<nat>)
    requires ids != [] && ids[0] < |s.attrs| && PlacesIn(s, r, ids[1..], kept, rest)
    ensures |later| == |kept| && (forall i :: 0 <= i < |ids| ==> ids[i] < |s.attrs|)
    ensures forall i :: 0 <= i < |later| ==> 0 < later[i] < |ids| && kept[i] == ids[later[i]]
    ensures forall i, j :: 0 <= i < j < |later| ==> later[i] < later[j]
    ensures forall p: nat :: p in later <==> 0 < p < |ids| && r.lo <= s.attrs[ids[p]] <= r.hi
  {
    later := OnePlaceOn(rest);
    assert ids == [ids[0]] + ids[1..];
    assert forall i :: 0 < i < |ids| ==> ids[i] == ids[1..][i - 1];
    forall p: nat ensures p in later <==> 0 < p < |ids| && r.lo <= s.attrs[ids[p]] <= r.hi {
      if p > 0 {
        assert p - 1 in rest <==> p - 1 < |ids[1..]| && r.lo <= s.attrs[ids[1..][p - 1]] <= r.hi;
      }
    }
  }

  lemma FirstPlace(s: Store, r: Range, ids: seq<nat>, kept: seq<nat>, later: seq<nat>)
    requires |later| == |kept| && ids != [] && forall i :: 0 <= i < |ids| ==> ids[i] < |s.attrs|
    requires forall i :: 0 <= i < |later| ==> 0 < later[i] < |ids| && kept[i] == ids[later[i]]
    requires forall i, j :: 0 <= i < j < |later| ==> later[i] < later[j]
    requires forall p: nat :: p in later <==> 0 < p < |ids| && r.lo <= s.attrs[ids[p]] <= r.hi
    ensures InRange(s, r, ids[0]) ==> PlacesIn(s, r, ids, [ids[0]] + kept, [0] + later)
    ensures !InRange(s, r, ids[0]) ==> PlacesIn(s, r, ids, kept, later)
  {
    if InRange(s, r, ids[0]) {
      var all := [0] + later;
      forall p: nat ensures p in all <==> p < |ids| && r.lo <= s.attrs[ids[p]] <= r.hi {
        assert p in all <==> p == 0 || p in later;
      }
      forall i, j | 0 <= i < j < |all| ensures all[i] < all[j] {
        assert all[j] == later[j - 1] && (i > 0 ==> all[i] == later[i - 1]);
      }
    }
  }

  lemma {:induction false} PlacesOfFilter(s: Store, r: Range, ids: seq<nat>) returns (places: seq<nat>)
    requires forall i :: 0 <= i < |ids| ==> ids[i] < |s.attrs|
    ensures PlacesIn(s, r, ids, Filter(s, r, ids), places)
  {
    if ids == [] {
      places := [];
    } else {
      var rest := PlacesOfFilter(s, r, ids[1..]);
      hide PlacesIn;
      var kept := Filter(s, r, ids[1..]);
      var later := LaterPlaces(s, r, ids, kept, rest);
      FirstPlace(s, r, ids, kept, later);
      places := if InRange(s, r, ids[0]) then [0] + later else later;
      assert !InRange(s, r, ids[0]) ==> Filter(s, r, ids) == kept;
    }
  }

  /** Filtering keeps the places in range, each once and in order. */
  lemma FilterPlaces(s: Store, r: Range, ids: seq<nat>) returns (places: seq<nat>)
    requires forall i :: 0 <= i < |ids| ==> ids[i] < |s.attrs|
    ensures |places| == |Filter(s, r, ids)|
    ensures forall i :: 0 <= i < |places| ==> places[i] < |ids| && Filter(s, r, ids)[i] == ids[places[i]]
    ensures forall i, j :: 0 <= i < j < |places| ==> places[i] < places[j]
    ensures forall p: nat :: p in places <==> p < |ids| && r.lo <= s.attrs[ids[p]] <= r.hi
  {
    hide Filter;
    places := PlacesOfFilter(s, r, ids);
  }

  /** finish spelled out on the places of what was found. */
  lemma FinishMeans(distance: nat -> int, found: seq<nat>, k: nat, ids: seq<int>) returns (rows: seq<nat>)
    requires ids == Finish(HitsOf(distance, found), k)
    ensures |rows| <= |ids| == k && (|found| <= k ==> forall m: nat :: m < |found| ==> m in rows)
    ensures |rows| < k ==> |found| <= k
    ensures forall i :: 0 <= i < |rows| ==> rows[i] < |found| && ids[i] == found[rows[i]]
    ensures forall i :: |rows| <= i < k ==> ids[i] == -1
    ensures forall i, j :: 0 <= i < j < |rows| ==>
      var x, y := found[rows[i]], found[rows[j]];
      rows[i] != rows[j] && (distance(x) < distance(y) || (distance(x) == distance(y) && x <= y))
    ensures forall i, m :: 0 <= i < |rows| && 0 <= m < |found| && m !in rows ==>
      var x, y := found[rows[i]], found[m];
      distance(y) > distance(x) || (distance(y) == distance(x) && y >= x)
  {
    hide TopK;
    var hits := HitsOf(distance, found);
    rows := TopKPicks(hits, k);
    assert forall m :: 0 <= m < |found| ==> hits[m] == Hit(distance(found[m]), found[m]);
    assert forall i :: 0 <= i < |rows| ==> ids[i] == TopK(hits, k)[i].id;
  }

  /** The answer spelled out on packed places: rows of the closed range, a smaller
      distance first and of equal distances the smaller id, then -1; a row of the
      range is left out only when k others are no worse. */
  lemma QueryMeans(s: Store, r: Range, distance: nat -> int, k: nat, ids: seq<int>) returns (places: seq<nat>)
    requires ValidStore(s) && ids == Finish(HitsOf(distance, Filter(s, r, s.packedIds)), k)
    ensures |places| <= |ids| == k
    ensures forall i :: 0 <= i < |places| ==>
      && places[i] < |s.packedIds| && ids[i] == s.packedIds[places[i]]
      && r.lo <= s.attrs[s.packedIds[places[i]]] <= r.hi
    ensures forall i :: |places| <= i < k ==> ids[i] == -1
    ensures forall i, j :: 0 <= i < j < |places| ==>
      var x, y := s.packedIds[places[i]], s.packedIds[places[j]];
      places[i] != places[j] && (distance(x) < distance(y) || (distance(x) == distance(y) && x <= y))
    ensures forall p: nat :: p < |s.packedIds| && r.lo <= s.attrs[s.packedIds[p]] <= r.hi && p !in places ==>
      |places| == k && forall i :: 0 <= i < k ==>
        var x, y := s.packedIds[places[i]], s.packedIds[p];
        distance(y) > distance(x) || (distance(y) == distance(x) && y >= x)
  {
    assert forall p :: 0 <= p < |s.packedIds| ==> s.packedIds[p] < |s.attrs|;
    hide Finish, HitsOf, Filter, ValidStore;
    var found := Filter(s, r, s.packedIds);
    var from := FilterPlaces(s, r, s.packedIds);
    places := RankedPlaces(distance, s.packedIds, found, from, k, ids);
  }

  lemma RankedPlaces(distance: nat -> int, packed: seq<nat>, found: seq<nat>, from: seq<nat>, k: nat, ids: seq<int>)
    returns (places: seq<nat>)
    requires |from| == |found| && forall m :: 0 <= m < |found| ==> from[m] < |packed| && found[m] == packed[from[m]]
    requires forall i, j :: 0 <= i < j < |from| ==> from[i] < from[j]
    requires ids == Finish(HitsOf(distance, found), k)
    ensures |places| <= |ids| == k
    ensures forall i :: 0 <= i < |places| ==>
      places[i] in from && places[i] < |packed| && ids[i] == packed[places[i]]
    ensures forall i :: |places| <= i < k ==> ids[i] == -1
    ensures forall i, j :: 0 <= i < j < |places| ==>
      var x, y := packed[places[i]], packed[places[j]];
      places[i] != places[j] && (distance(x) < distance(y) || (distance(x) == distance(y) && x <= y))
    ensures forall p: nat :: p in from && p !in places ==>
      p < |packed| && |places| == k && forall i :: 0 <= i < k ==>
        var x, y := packed[places[i]], packed[p];
        distance(y) > distance(x) || (distance(y) == distance(x) && y >= x)
  {
    hide Finish, HitsOf;
    var rows := FinishMeans(distance, found, k, ids);
    places := ThroughPlaces(distance, packed, found, from, rows, k);
  }

  /** A ranking of what was found, carried over to the places it was found at. */
  lemma ThroughPlaces(distance: nat -> int, packed: seq<nat>, found: seq<nat>, from: seq<nat>, rows: seq<nat>, k: nat)
    returns (places: seq<nat>)
    requires |from| == |found| && forall m :: 0 <= m < |found| ==> from[m] < |packed| && found[m] == packed[from[m]]
    requires forall i, j :: 0 <= i < j < |from| ==> from[i] < from[j]
    requires |rows| <= k && (|rows| < k ==> |found| <= k)
    requires |found| <= k ==> forall q: nat :: q < |found| ==> q in rows
    requires forall i :: 0 <= i < |rows| ==> rows[i] < |found|
    requires forall i, j :: 0 <= i < j < |rows| ==>
      var x, y := found[rows[i]], found[rows[j]];
      rows[i] != rows[j] && (distance(x) < distance(y) || (distance(x) == distance(y) && x <= y))
    requires forall i, m :: 0 <= i < |rows| && 0 <= m < |found| && m !in rows ==>
      var x, y := found[rows[i]], found[m];
      distance(y) > distance(x) || (distance(y) == distance(x) && y >= x)
    ensures |places| == |rows|
    ensures forall i :: 0 <= i < |rows| ==>
      places[i] in from && places[i] < |packed| && packed[places[i]] == found[rows[i]]
    ensures forall i, j :: 0 <= i < j < |places| ==>
      var x, y := packed[places[i]], packed[places[j]];
      places[i] != places[j] && (distance(x) < distance(y) || (distance(x) == distance(y) && x <= y))
    ensures forall p: nat :: p in from && p !in places ==>
      p < |packed| && |places| == k && forall i :: 0 <= i < k ==>
        var x, y := packed[places[i]], packed[p];
        distance(y) > distance(x) || (distance(y) == distance(x) && y >= x)
  {
    places := seq(|rows|, i requires 0 <= i < |rows| && rows[i] < |from| => from[rows[i]]);
    forall i, j | 0 <= i < j < |rows| ensures places[i] != places[j] {
      assert rows[i] < rows[j] || rows[j] < rows[i];
    }
    forall p: nat | p in from && p !in places
      ensures p < |packed| && |places| == k
      ensures forall i :: 0 <= i < k ==>
        var x, y := packed[places[i]], packed[p];
        distance(y) > distance(x) || (distance(y) == distance(x) && y >= x)
    {
      var m := LeftOutPlace(from, rows, places, p);
      LeftOutIsWorse(distance, found, rows, k, packed, places, m, p);
    }
  }

  lemma LeftOutPlace(from: seq<nat>, rows: seq<nat>, places: seq<nat>, p: nat) returns (m: nat)
    requires |places| == |rows| && p in from && p !in places
    requires forall i :: 0 <= i < |rows| ==> rows[i] < |from| && places[i] == from[rows[i]]
    ensures m < |from| && from[m] == p && m !in rows
  {
    m :| m < |from| && from[m] == p;
    assert m !in rows by {
      assert forall i :: 0 <= i < |rows| ==> from[rows[i]] == places[i];
    }
  }

  lemma LeftOutIsWorse(distance: nat -> int, found: seq<nat>, rows: seq<nat>, k: nat, packed: seq<nat>,
                       places: seq<nat>, m: nat, p: nat)
    requires |places| == |rows| && m < |found| && p < |packed| && found[m] == packed[p] && m !in rows
    requires |rows| <= k && (|rows| < k ==> |found| <= k)
    requires |found| <= k ==> forall q: nat :: q < |found| ==> q in rows
    requires forall i :: 0 <= i < |rows| ==>
      rows[i] < |found| && places[i] < |packed| && found[rows[i]] == packed[places[i]]
    requires forall i, q :: 0 <= i < |rows| && 0 <= q < |found| && q !in rows ==>
      var x, y := found[rows[i]], found[q];
      distance(y) > distance(x) || (distance(y) == distance(x) && y >= x)
    ensures |places| == k
    ensures forall i :: 0 <= i < k ==>
      var x, y := packed[places[i]], packed[p];
      distance(y) > distance(x) || (distance(y) == distance(x) && y >= x)
  {
  }
}

// The query engine over a selected layout: fragments stored as ids, fragments
// stored as packed vectors, and pairs that are intersected when they are asked
// for. What is stored changes the cost of an answer and never the answer.

module FragmentEngine {
  import opened Divisibility
  import opened Options
  import opened Ranking
  import opened DistanceKernels
  import opened IdSort
  import opened Supports
  import opened FragmentQuery
  import Cover = FragmentCover

  // --- Fragments and what is stored of them ---

  /** Ids of a fragment, with its packed vectors if it has any. */
  datatype Fragment = Fragment(ids: seq<nat>, packed: Option<seq<Vector>>)

  ghost predicate Sound(d: Data, f: Fragment) {
    InData(d, f.ids) && NoRepeats(f.ids) && MayPack(d, f.ids, f.packed)
  }

  ghost function IdsOf(fragments: seq<Fragment>): (supports: seq<seq<nat>>)
    ensures |supports| == |fragments|
  {
    seq(|fragments|, i requires 0 <= i < |fragments| => fragments[i].ids)
  }

  datatype Store = Store(materialized: map<Cover.Key, seq<nat>>, packed: map<Cover.Key, seq<Vector>>)

  /** The rows below n of `width` bins from `start`, ascending. */
  ghost function BinIds(d: Data, start: nat, width: nat, n: nat): (ids: seq<nat>)
    requires ValidData(d) && n <= |d.vectors|
    ensures Ascending(ids) && forall g: nat :: g in ids <==> g < n && start <= d.bin[g] < start + width
  {
    if n == 0 then [] else
      var before := BinIds(d, start, width, n - 1);
      assert forall i :: 0 <= i < |before| ==> before[i] in before;
      before + if start <= d.bin[n - 1] < start + width then [n - 1] else []
  }

  /** The support behind a catalog key. */
  ghost function SupportOf(d: Data, key: Cover.Key): (ids: seq<nat>)
    requires ValidData(d)
    ensures Ascending(ids) && InData(d, ids) && NoRepeats(ids)
  {
    var n := |d.vectors|;
    var ids :=
      match key
      case AKey(a) => Posting(d.catA, a, n)
      case PairKey(p) =>
        if d.schema.bCount == 0 then [] else PairPosting(d, p / d.schema.bCount, p % d.schema.bCount, n)
      case RangeKey(width, start) => BinIds(d, start, width, n);
    AscendingFragment(d, ids);
    ids
  }

  /** The store of a selection: its ids and its packed vectors, and nothing else. */
  ghost predicate StoreOf(d: Data, sel: Cover.Selection, store: Store)
    requires ValidData(d)
  {
    && store.materialized.Keys == sel.ids && store.packed.Keys == sel.packed
    && (forall key :: key in store.materialized ==> store.materialized[key] == SupportOf(d, key))
    && (forall key :: key in store.packed ==> PacksRows(d, SupportOf(d, key), store.packed[key]))
  }

  /** Rows of one dyadic fragment of bins. */
  method RangeFragment(d: Data, start: nat, width: nat) returns (ids: seq<nat>)
    requires ValidData(d)
    ensures Ascending(ids) && forall g: nat :: g in ids <==> g < |d.vectors| && start <= d.bin[g] < start + width
  {
    var out := [];
    for bin := start to start + width
      invariant forall g: nat :: g in out <==> g < |d.vectors| && start <= d.bin[g] < bin
    {
      out := out + Posting(d.bin, bin, |d.vectors|);
    }
    ids := SortUnique(out);
  }

  lemma AscendingFragment(d: Data, ids: seq<nat>)
    requires Ascending(ids) && forall g: nat :: g in ids ==> g < |d.vectors|
    ensures InData(d, ids) && NoRepeats(ids)
  {
    forall i | 0 <= i < |ids| ensures ids[i] < |d.vectors| {
      assert ids[i] in ids;
    }
  }

  /** The posting of a catalog key. */
  method CatalogIds(d: Data, key: Cover.Key) returns (ids: seq<nat>)
    requires ValidData(d)
    ensures ids == SupportOf(d, key)
  {
    match key
    case AKey(a) => ids := Posting(d.catA, a, |d.vectors|);
    case PairKey(p) =>
      if d.schema.bCount == 0 {
        ids := [];
      } else {
        ids := PairPosting(d, p / d.schema.bCount, p % d.schema.bCount, |d.vectors|);
      }
    case RangeKey(width, start) =>
      ids := RangeFragment(d, start, width);
      AscendingIsUnique(ids, SupportOf(d, key));
  }

  /** pack(): one vector per id. */
  method Pack(d: Data, ids: seq<nat>) returns (rows: seq<Vector>)
    requires InData(d, ids)
    ensures PacksRows(d, ids, rows)
  {
    rows := [];
    for i := 0 to |ids|
      invariant |rows| == i && forall j :: 0 <= j < i ==> rows[j] == d.vectors[ids[j]]
    {
      rows := rows + [d.vectors[ids[i]]];
    }
  }

  /** The last part of build(): what was selected is stored. */
  method BuildStore(d: Data, sel: Cover.Selection) returns (store: Store)
    requires ValidData(d)
    ensures StoreOf(d, sel, store)
  {
    hide SupportOf;
    var materialized: map<Cover.Key, seq<nat>>, waiting := map[], sel.ids;
    while waiting != {}
      invariant materialized.Keys + waiting == sel.ids && materialized.Keys !! waiting
      invariant forall key :: key in materialized ==> materialized[key] == SupportOf(d, key)
      decreases waiting
    {
      var key :| key in waiting;
      var ids := CatalogIds(d, key);
      materialized, waiting := materialized[key := ids], waiting - {key};
    }
    var packed: map<Cover.Key, seq<Vector>> := map[];
    waiting := sel.packed;
    while waiting != {}
      invariant packed.Keys + waiting == sel.packed && packed.Keys !! waiting
      invariant forall key :: key in packed ==> PacksRows(d, SupportOf(d, key), packed[key])
      decreases waiting
    {
      var key :| key in waiting;
      var ids := CatalogIds(d, key);
      var rows := Pack(d, ids);
      packed, waiting := packed[key := rows], waiting - {key};
    }
    store := Store(materialized, packed);
  }

  function PackedOf(store: Store, key: Cover.Key): Option<seq<Vector>> {
    if key in store.packed then Some(store.packed[key]) else None
  }

  /** one_fragment: the catalog's ids, over packed vectors when there are any. */
  method OneFragment(d: Data, ghost sel: Cover.Selection, store: Store, key: Cover.Key) returns (f: Fragment)
    requires ValidData(d) && StoreOf(d, sel, store)
    ensures Sound(d, f) && f.ids == SupportOf(d, key)
  {
    hide SupportOf;
    var ids := CatalogIds(d, key);
    f := Fragment(ids, PackedOf(store, key));
  }

  /** A pair's key gives the pair back. */
  lemma PairOfKey(bCount: nat, a: nat, b: nat)
    requires b < bCount
    ensures (a * bCount + b) / bCount == a && (a * bCount + b) % bCount == b
  {
    var p := a * bCount + b;
    Division(p, bCount);
    assert p == a * bCount + b == p / bCount * bCount + p % bCount;
    Digits(bCount, a, b, p / bCount, p % bCount);
  }

  /** The intersection that serves a pair which is not stored. */
  method OnlinePair(d: Data, a: nat, b: nat) returns (ids: seq<nat>)
    requires ValidData(d)
    ensures ids == PairPosting(d, a, b, |d.vectors|) && InData(d, ids) && NoRepeats(ids)
  {
    var n := |d.vectors|;
    ids := Intersect(Posting(d.catA, a, n), Posting(d.catB, b, n));
    AscendingIsUnique(ids, PairPosting(d, a, b, n));
    AscendingFragment(d, ids);
  }

  /** pair_fragment: the stored ids, packed or not, or else the online intersection. */
  method PairFragment(d: Data, ghost sel: Cover.Selection, store: Store, a: nat, b: nat) returns (f: Fragment)
    requires ValidData(d) && StoreOf(d, sel, store) && b < d.schema.bCount
    ensures Sound(d, f) && f.ids == PairPosting(d, a, b, |d.vectors|)
  {
    var key := Cover.PairKey(a * d.schema.bCount + b);
    PairOfKey(d.schema.bCount, a, b);
    assert SupportOf(d, key) == PairPosting(d, a, b, |d.vectors|);
    hide SupportOf, PacksRows;
    if key in store.materialized {
      f := Fragment(store.materialized[key], PackedOf(store, key));
    } else {
      var ids := OnlinePair(d, a, b);
      f := Fragment(ids, None);
    }
  }

  /** Scans each fragment; a fragment with fewer than k rows fails the query. */
  method ScanFragments(d: Data, query: Vector, fragments: seq<Fragment>, k: nat) returns (parts: Option<seq<seq<int>>>)
    requires k > 0 && forall i :: 0 <= i < |fragments| ==> Sound(d, fragments[i])
    ensures parts.Some? <==> Fragments(d, IdsOf(fragments), k)
    ensures parts.Some? ==> PartsExact(d, query, IdsOf(fragments), parts.value, k)
  {
    var out := [];
    for i := 0 to |fragments|
      invariant |out| == i && forall j :: 0 <= j < i ==> |fragments[j].ids| >= k
      invariant forall j :: 0 <= j < i ==> out[j] == Ids(TopK(HitsFor(d, query, fragments[j].ids), k))
    {
      assert Sound(d, fragments[i]) && IdsOf(fragments)[i] == fragments[i].ids;
      var part := Scan(d, query, fragments[i].ids, fragments[i].packed, k);
      if part.None? {
        return None;
      }
      out := out + [part.value];
    }
    parts := Some(out);
  }

  /** The rows below n whose bin lies in fragment i of a cover, ascending. */
  ghost function TileIds(d: Data, tiles: seq<nat>, lo: nat, i: nat, n: nat): (ids: seq<nat>)
    requires ValidData(d) && n <= |d.vectors|
    ensures Ascending(ids) && forall g: nat :: g in ids <==> g < n && Cover.InTile(tiles, lo, i, d.bin[g])
  {
    if n == 0 then [] else
      var before := TileIds(d, tiles, lo, i, n - 1);
      assert forall i :: 0 <= i < |before| ==> before[i] in before;
      before + if Cover.InTile(tiles, lo, i, d.bin[n - 1]) then [n - 1] else []
  }

  /** The tiles of a cover hold each row of the range, and no other, once. */
  lemma TilesPartitionRows(d: Data, sel: Cover.Selection, tiles: seq<nat>, lo: nat, hi: nat, supports: seq<seq<nat>>)
    requires ValidData(d) && lo <= hi && Cover.Tiling(sel, tiles, lo, hi) && |supports| == |tiles|
    requires forall i: nat :: i < |tiles| ==> supports[i] == TileIds(d, tiles, lo, i, |d.vectors|)
    ensures forall g: nat ::
      (exists i :: 0 <= i < |supports| && g in supports[i]) <==> Matches(d, Range(lo, hi), g)
    ensures forall i, j, g: nat :: 0 <= i < j < |supports| && g in supports[i] ==> g !in supports[j]
  {
    hide Cover.Tiling;
    forall g: nat
      ensures (exists i :: 0 <= i < |supports| && g in supports[i]) <==> Matches(d, Range(lo, hi), g)
    {
      if g < |d.vectors| {
        Cover.TilesPartition(sel, tiles, lo, hi, d.bin[g]);
        if Matches(d, Range(lo, hi), g) {
          var i: nat :| Cover.InTile(tiles, lo, i, d.bin[g]);
          assert g in supports[i];
        }
      }
    }
    forall i: nat, j: nat, g: nat | i < j < |supports| && g in supports[i] ensures g !in supports[j] {
      Cover.TilesPartition(sel, tiles, lo, hi, d.bin[g]);
    }
  }

  lemma TileSupport(d: Data, tiles: seq<nat>, lo: nat, i: nat)
    requires ValidData(d) && i < |tiles|
    ensures SupportOf(d, Cover.RangeKey(tiles[i], Cover.TileStart(tiles, lo, i)))
         == TileIds(d, tiles, lo, i, |d.vectors|)
  {
    AscendingIsUnique(SupportOf(d, Cover.RangeKey(tiles[i], Cover.TileStart(tiles, lo, i))),
                      TileIds(d, tiles, lo, i, |d.vectors|));
  }

  /** The fragments of a cover hold exactly the rows of the range, each row once. */
  method CoverFragments(d: Data, sel: Cover.Selection, store: Store, tiles: seq<nat>, lo: nat, hi: nat)
    returns (fragments: seq<Fragment>)
    requires ValidData(d) && lo <= hi && Cover.Tiling(sel, tiles, lo, hi) && StoreOf(d, sel, store)
    ensures |fragments| == |tiles| > 0
    ensures forall i :: 0 <= i < |fragments| ==> Sound(d, fragments[i])
    ensures forall g: nat ::
      (exists i :: 0 <= i < |fragments| && g in IdsOf(fragments)[i]) <==> Matches(d, Range(lo, hi), g)
    ensures forall i, j, g: nat ::
      0 <= i < j < |fragments| && g in IdsOf(fragments)[i] ==> g !in IdsOf(fragments)[j]
    ensures forall i: nat :: i < |fragments| ==> IdsOf(fragments)[i] == TileIds(d, tiles, lo, i, |d.vectors|)
  {
    hide Sound, StoreOf, SupportOf, TileIds, Cover.Tiling, ValidData;
    fragments := [];
    for i := 0 to |tiles|
      invariant |fragments| == i
      invariant forall j :: 0 <= j < i ==> Sound(d, fragments[j])
      invariant forall j: nat :: j < i ==> fragments[j].ids == TileIds(d, tiles, lo, j, |d.vectors|)
    {
      TileSupport(d, tiles, lo, i);
      var f := OneFragment(d, sel, store, Cover.RangeKey(tiles[i], Cover.TileStart(tiles, lo, i)));
      fragments := fragments + [f];
    }
    Cover.EmptyTiling(sel, tiles, lo, hi);
    TilesPartitionRows(d, sel, tiles, lo, hi, IdsOf(fragments));
  }

  ghost function RangeIds(d: Data, lo: nat, hi: nat, n: nat): (ids: seq<nat>)
    requires ValidData(d) && n <= |d.vectors|
    ensures Ascending(ids) && forall g: nat :: g in ids <==> g < n && lo <= d.bin[g] <= hi
  {
    if n == 0 then [] else
      var before := RangeIds(d, lo, hi, n - 1);
      assert forall i :: 0 <= i < |before| ==> before[i] in before;
      before + if lo <= d.bin[n - 1] <= hi then [n - 1] else []
  }

  /** Every fragment of a cover holds at least k rows. */
  ghost predicate EnoughRows(d: Data, tiles: seq<nat>, lo: nat, k: nat)
    requires ValidData(d)
  {
    forall i: nat :: i < |tiles| ==> |TileIds(d, tiles, lo, i, |d.vectors|)| >= k
  }

  lemma MoreRows(s: seq<nat>, t: seq<nat>)
    requires Ascending(s) && Ascending(t) && forall g: nat :: g in s ==> g in t
    ensures |s| <= |t|
  {
    forall g ensures multiset(s)[g] <= multiset(t)[g] {
      CountedOnce(s, g);
      CountedOnce(t, g);
    }
    assert multiset(t) == multiset(s) + (multiset(t) - multiset(s));
    assert |multiset(s)| == |s| && |multiset(t)| == |t|;
  }

  /** A cover answers when every bin of the range holds k rows: each fragment holds a bin. */
  lemma FullBinsAnswer(d: Data, sel: Cover.Selection, tiles: seq<nat>, lo: nat, hi: nat, k: nat)
    requires ValidData(d) && Cover.Tiling(sel, tiles, lo, hi)
    requires forall bin: nat :: lo <= bin <= hi ==> |BinIds(d, bin, 1, |d.vectors|)| >= k
    ensures EnoughRows(d, tiles, lo, k)
  {
    hide BinIds, TileIds;
    forall i: nat | i < |tiles| ensures |TileIds(d, tiles, lo, i, |d.vectors|)| >= k {
      var start := Cover.TileStart(tiles, lo, i);
      Cover.TileInRange(sel, tiles, lo, hi, i);
      MoreRows(BinIds(d, start, 1, |d.vectors|), TileIds(d, tiles, lo, i, |d.vectors|));
    }
  }

  /** A cover answers only when the range holds k rows. */
  lemma AnswersNeedRows(d: Data, sel: Cover.Selection, tiles: seq<nat>, lo: nat, hi: nat, k: nat)
    requires ValidData(d) && lo <= hi && Cover.Tiling(sel, tiles, lo, hi) && EnoughRows(d, tiles, lo, k)
    ensures |RangeIds(d, lo, hi, |d.vectors|)| >= k
  {
    hide RangeIds, TileIds;
    var n := |d.vectors|;
    Cover.EmptyTiling(sel, tiles, lo, hi);
    forall g: nat | g in TileIds(d, tiles, lo, 0, n) ensures g in RangeIds(d, lo, hi, n) {
      Cover.TilesPartition(sel, tiles, lo, hi, d.bin[g]);
    }
    MoreRows(TileIds(d, tiles, lo, 0, n), RangeIds(d, lo, hi, n));
  }

  /** The cover a range query takes has k rows in every fragment. */
  ghost predicate RangeAnswers(d: Data, c: Cover.Catalog, sel: Cover.Selection, lo: nat, hi: nat, k: nat)
    requires ValidData(d)
  {
    exists cover :: Cover.Chosen(c, sel, cover, lo, hi) && EnoughRows(d, cover.tiles, lo, k)
  }

  /** What a caller can tell beforehand: k rows in every bin are enough, fewer than k in the range are not. */
  lemma RangeAnswersBetween(d: Data, c: Cover.Catalog, sel: Cover.Selection, lo: nat, hi: nat, k: nat)
    requires ValidData(d) && lo <= hi
    ensures (forall bin: nat :: lo <= bin <= hi ==> |BinIds(d, bin, 1, |d.vectors|)| >= k) ==>
      RangeAnswers(d, c, sel, lo, hi, k)
    ensures RangeAnswers(d, c, sel, lo, hi, k) ==> |RangeIds(d, lo, hi, |d.vectors|)| >= k
  {
    hide EnoughRows, Cover.Chosen, BinIds, RangeIds;
    var cover := Cover.ChosenExists(c, sel, lo, hi);
    Cover.ChosenIsOptimal(c, sel, cover, lo, hi);
    OptimalTiles(c, sel, cover, lo, hi);
    if forall bin: nat :: lo <= bin <= hi ==> |BinIds(d, bin, 1, |d.vectors|)| >= k {
      FullBinsAnswer(d, sel, cover.tiles, lo, hi, k);
    }
    if RangeAnswers(d, c, sel, lo, hi, k) {
      var other :| Cover.Chosen(c, sel, other, lo, hi) && EnoughRows(d, other.tiles, lo, k);
      Cover.ChosenIsUnique(c, sel, lo, hi, cover, other);
      AnswersNeedRows(d, sel, cover.tiles, lo, hi, k);
    }
  }

  lemma ChosenDecides(d: Data, c: Cover.Catalog, sel: Cover.Selection, cover: Cover.Cover, lo: nat, hi: nat, k: nat)
    requires ValidData(d) && Cover.Chosen(c, sel, cover, lo, hi)
    ensures RangeAnswers(d, c, sel, lo, hi, k) <==> EnoughRows(d, cover.tiles, lo, k)
  {
    hide EnoughRows, Cover.Chosen;
    if RangeAnswers(d, c, sel, lo, hi, k) {
      var other :| Cover.Chosen(c, sel, other, lo, hi) && EnoughRows(d, other.tiles, lo, k);
      Cover.ChosenIsUnique(c, sel, lo, hi, cover, other);
    }
  }

  /** Range route: the cheapest cover of what is stored, its fragments ranked and merged. */
  method QueryRange(d: Data, c: Cover.Catalog, ghost sel: Cover.Selection, store: Store, lo: nat, hi: nat,
                    query: Vector, k: nat)
    returns (result: Option<seq<int>>)
    requires ValidData(d) && lo <= hi && k > 0 && StoreOf(d, sel, store)
    ensures result.Some? <==> RangeAnswers(d, c, sel, lo, hi, k)
    ensures result.Some? ==> IsExact(d, Range(lo, hi), query, k, result)
  {
    var active := Cover.Selection(store.materialized.Keys, store.packed.Keys);
    assert active == sel;
    hide PartsExact, ExactOver, Cover.Optimal, Cover.Chosen, RangeAnswers, StoreOf, Sound;
    var cover := Cover.ComputeCover(c, lo, hi, active);
    ChosenDecides(d, c, sel, cover, lo, hi, k);
    OptimalTiles(c, sel, cover, lo, hi);
    var fragments := CoverFragments(d, active, store, cover.tiles, lo, hi);
    var parts := ScanFragments(d, query, fragments, k);
    ghost var supports := IdsOf(fragments);
    assert Fragments(d, supports, k) <==> EnoughRows(d, cover.tiles, lo, k) by { SoundSupports(d, fragments); }
    if parts.None? {
      return None;
    }
    ghost var all := RangeIds(d, lo, hi, |d.vectors|);
    AscendingFragment(d, all);
    assert forall g: nat :: g in all <==> Matches(d, Range(lo, hi), g);
    assert Holds(all, supports);
    result := MergeResults(d, query, supports, parts.value, k, all);
    assert IsSupport(d, Range(lo, hi), all);
  }

  lemma SoundSupports(d: Data, fragments: seq<Fragment>)
    requires forall i :: 0 <= i < |fragments| ==> Sound(d, fragments[i])
    ensures forall i :: 0 <= i < |fragments| ==> InData(d, IdsOf(fragments)[i]) && NoRepeats(IdsOf(fragments)[i])
  {
  }

  lemma OptimalTiles(c: Cover.Catalog, sel: Cover.Selection, cover: Cover.Cover, lo: nat, hi: nat)
    requires Cover.Optimal(c, sel, cover, lo, hi)
    ensures Cover.Tiling(sel, cover.tiles, lo, hi)
  {
  }

  /** Two-pair route: both pair fragments ranked and merged. The two pairs may coincide. */
  method QueryDnf(d: Data, ghost sel: Cover.Selection, store: Store, a: nat, b: nat, x: nat, y: nat,
                  query: Vector, k: nat)
    returns (result: Option<seq<int>>)
    requires ValidData(d) && k > 0 && StoreOf(d, sel, store) && b < d.schema.bCount && y < d.schema.bCount
    ensures result.Some? <==>
      |PairPosting(d, a, b, |d.vectors|)| >= k && |PairPosting(d, x, y, |d.vectors|)| >= k
    ensures result.Some? ==> IsExact(d, Dnf(a, b, x, y), query, k, result)
  {
    hide PartsExact, ExactOver, IsSupport, StoreOf, Sound;
    var left := PairFragment(d, sel, store, a, b);
    var right := PairFragment(d, sel, store, x, y);
    var fragments := [left, right];
    ghost var supports := IdsOf(fragments);
    assert supports == [left.ids, right.ids];
    SoundSupports(d, fragments);
    assert supports[0] == left.ids && supports[1] == right.ids;
    var parts := ScanFragments(d, query, fragments, k);
    if parts.None? {
      return None;
    }
    ghost var all := SortUnique(left.ids + right.ids);
    DnfUnion(d, a, b, x, y, left.ids, right.ids, all);
    result := MergeResults(d, query, supports, parts.value, k, all);
  }

  lemma DnfUnion(d: Data, a: nat, b: nat, x: nat, y: nat, left: seq<nat>, right: seq<nat>, all: seq<nat>)
    requires ValidData(d) && left == PairPosting(d, a, b, |d.vectors|) && right == PairPosting(d, x, y, |d.vectors|)
    requires Ascending(all) && forall g: nat :: g in all <==> g in left + right
    ensures InData(d, all) && NoRepeats(all) && Holds(all, [left, right]) && IsSupport(d, Dnf(a, b, x, y), all)
  {
    AscendingFragment(d, all);
    assert [left, right][0] == left && [left, right][1] == right;
  }

  /** When an answer is due: a simple predicate needs k rows, a merged one needs
      k rows in every fragment it merges. */
  ghost predicate Answers(d: Data, c: Cover.Catalog, sel: Cover.Selection, spec: Spec, k: nat)
    requires ValidData(d)
  {
    match spec
    case Equality(a) => |Posting(d.catA, a, |d.vectors|)| >= k
    case Conjunction(a, b) => |PairPosting(d, a, b, |d.vectors|)| >= k
    case Range(lo, hi) => RangeAnswers(d, c, sel, lo, hi, k)
    case Dnf(a, b, x, y) =>
      |PairPosting(d, a, b, |d.vectors|)| >= k && |PairPosting(d, x, y, |d.vectors|)| >= k
  }

  /** The four routes. */
  method Route(d: Data, c: Cover.Catalog, ghost sel: Cover.Selection, store: Store, spec: Spec, query: Vector, k: nat)
    returns (result: Option<seq<int>>)
    requires ValidData(d) && ValidSpec(d.schema, spec) && k > 0 && StoreOf(d, sel, store)
    ensures result.Some? <==> Answers(d, c, sel, spec, k)
    ensures result.Some? ==> IsExact(d, spec, query, k, result)
  {
    hide StoreOf, RangeAnswers;
    match spec
    case Equality(a) =>
      var f := OneFragment(d, sel, store, Cover.AKey(a));
      result := Scan(d, query, f.ids, f.packed, k);
      assert IsSupport(d, spec, f.ids);
    case Conjunction(a, b) =>
      var f := PairFragment(d, sel, store, a, b);
      result := Scan(d, query, f.ids, f.packed, k);
      assert IsSupport(d, spec, f.ids);
    case Range(lo, hi) =>
      result := QueryRange(d, c, sel, store, lo, hi, query, k);
    case Dnf(a, b, x, y) =>
      result := QueryDnf(d, sel, store, a, b, x, y, query, k);
  }

  /** query(): whatever was selected and stored, an answer is the exact one. */
  method Query(d: Data, c: Cover.Catalog, ghost sel: Cover.Selection, store: Store, spec: Spec, query: Vector, k: nat)
    returns (result: Option<seq<int>>)
    requires ValidData(d) && ValidSpec(d.schema, spec) && k > 0 && StoreOf(d, sel, store)
    ensures result.Some? <==> Answers(d, c, sel, spec, k)
    ensures result.Some? ==> IsExact(d, spec, query, k, result)
    ensures result.Some? ==> |result.value| == k && forall i :: 0 <= i < k ==>
      0 <= result.value[i] < |d.vectors| && Matches(d, spec, result.value[i])
    ensures result.Some? ==> forall i, j :: 0 <= i < j < k ==>
      var x, y := result.value[i], result.value[j];
      var near, far := SquaredL2(query, d.vectors[x]), SquaredL2(query, d.vectors[y]);
      near < far || (near == far && x < y)
    ensures result.Some? ==> forall i, g: nat :: 0 <= i < k && Matches(d, spec, g) && g !in result.value ==>
      var x := result.value[i];
      var kept, left := SquaredL2(query, d.vectors[x]), SquaredL2(query, d.vectors[g]);
      left > kept || (left == kept && g > x)
  {
    hide IsExact, Answers, StoreOf;
    result := Route(d, c, sel, store, spec, query, k);
    if result.Some? {
      ExactMeans(d, spec, query, k, result);
    }
  }
}

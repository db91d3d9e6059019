// The fragment cover of a bin range: a dynamic program over dyadic fragments
// with a join charge, and the cost model it optimizes.

module FragmentCover {
  import opened Options

  /** Fragment keys: an A label, an (A, B) pair, or a dyadic range of bins. */
  datatype Key = AKey(a: nat) | PairKey(p: nat) | RangeKey(width: nat, start: nat)

  /** Support sizes behind the keys. */
  datatype Catalog = Catalog(aSizes: seq<nat>, bSizes: seq<nat>, pairSizes: seq<nat>, binSizes: seq<nat>)

  /** Fragments stored as ids, and fragments stored as packed vectors. */
  datatype Selection = Selection(ids: set<Key>, packed: set<Key>)

  const JOIN_CHARGE := 1500
  const WIDTHS: seq<nat> := [1, 2, 4, 8]

  function At(s: seq<nat>, i: nat): nat {
    if i < |s| then s[i] else 0
  }

  function BinRows(c: Catalog, start: nat, end: nat): nat
    decreases c, end
  {
    if end <= start then 0 else BinRows(c, start, end - 1) + At(c.binSizes, end - 1)
  }

  function Size(c: Catalog, key: Key): nat {
    match key
    case AKey(a) => At(c.aSizes, a)
    case PairKey(p) => At(c.pairSizes, p)
    case RangeKey(w, s) => BinRows(c, s, s + w)
  }

  /** fragment_cost: packed rows are cheap, a pair that is not stored is intersected online. */
  function FragmentCost(c: Catalog, key: Key, sel: Selection): int {
    var n := Size(c, key);
    if key in sel.packed then 3500 + 8 * n
    else if key.PairKey? && key !in sel.ids then
      var bCount := |c.bSizes|;
      if bCount == 0 then 5000 + 16 * n
      else 5000 + 4 * (At(c.aSizes, key.p / bCount) + At(c.bSizes, key.p % bCount)) + 16 * n
    else 3500 + 16 * n
  }

  // --- Tilings ---

  /** Fragments of width above one exist only when selected. */
  predicate Admitted(sel: Selection, w: nat, pos: nat) {
    w == 1 || RangeKey(w, pos) in sel.ids || RangeKey(w, pos) in sel.packed
  }

  /** One tile the dynamic program may place at pos. */
  predicate Placeable(sel: Selection, pos: nat, hi: nat, w: nat) {
    w in WIDTHS && pos % w == 0 && pos + w - 1 <= hi && Admitted(sel, w, pos)
  }

  /** `tiles` lists widths of consecutive placeable fragments covering [pos, hi]. */
  ghost predicate Tiling(sel: Selection, tiles: seq<nat>, pos: nat, hi: nat)
    decreases |tiles|
  {
    if tiles == [] then pos == hi + 1
    else Placeable(sel, pos, hi, tiles[0]) && Tiling(sel, tiles[1..], pos + tiles[0], hi)
  }

  ghost function TilingCost(c: Catalog, sel: Selection, tiles: seq<nat>, pos: nat): int
    decreases |tiles|
  {
    if tiles == [] then 0
    else FragmentCost(c, RangeKey(tiles[0], pos), sel) + TilingCost(c, sel, tiles[1..], pos + tiles[0]) +
         if |tiles| == 1 then 0 else JOIN_CHARGE
  }

  /** Cost first, then number of fragments. */
  predicate Better(cost: int, count: nat, cost': int, count': nat) {
    cost < cost' || (cost == cost' && count < count')
  }

  datatype Cover = Cover(cost: int, tiles: seq<nat>)

  ghost predicate Beats(c: Catalog, sel: Selection, cover: Cover, tiles: seq<nat>, pos: nat) {
    !Better(TilingCost(c, sel, tiles, pos), |tiles|, cover.cost, |cover.tiles|)
  }

  /** A tiling of [pos, hi] that no other tiling betters. */
  ghost predicate Optimal(c: Catalog, sel: Selection, cover: Cover, pos: nat, hi: nat) {
    && Tiling(sel, cover.tiles, pos, hi)
    && cover.cost == TilingCost(c, sel, cover.tiles, pos)
    && forall tiles :: Tiling(sel, tiles, pos, hi) ==> Beats(c, sel, cover, tiles, pos)
  }

  ghost function Rest(c: Catalog, sel: Selection, cover: Cover, pos: nat): Cover
    requires cover.tiles != []
  {
    Cover(TilingCost(c, sel, cover.tiles[1..], pos + cover.tiles[0]), cover.tiles[1..])
  }

  /** The cover the table holds: among the optimal ones the narrowest first
      fragment, and behind it the cover the table holds there. */
  ghost predicate Chosen(c: Catalog, sel: Selection, cover: Cover, pos: nat, hi: nat)
    decreases |cover.tiles|
  {
    && Optimal(c, sel, cover, pos, hi)
    && (cover.tiles != [] ==>
         && Chosen(c, sel, Rest(c, sel, cover, pos), pos + cover.tiles[0], hi)
         && forall tiles :: Tiling(sel, tiles, pos, hi) && tiles != [] && tiles[0] < cover.tiles[0] ==>
              StrictlyBeats(c, sel, cover, tiles, pos))
  }

  ghost predicate StrictlyBeats(c: Catalog, sel: Selection, cover: Cover, tiles: seq<nat>, pos: nat) {
    Better(cover.cost, |cover.tiles|, TilingCost(c, sel, tiles, pos), |tiles|)
  }

  /** Best so far over tilings whose first width is among the first i widths. */
  ghost predicate BestOfFirst(c: Catalog, sel: Selection, best: Option<Cover>, pos: nat, hi: nat, i: nat)
    requires i <= 4
  {
    && (best.Some? ==> Tiling(sel, best.value.tiles, pos, hi))
    && (best.Some? ==> best.value.cost == TilingCost(c, sel, best.value.tiles, pos))
    && forall tiles :: Tiling(sel, tiles, pos, hi) && tiles != [] && tiles[0] in WIDTHS[..i] ==>
         best.Some? && Beats(c, sel, best.value, tiles, pos)
  }

  lemma EmptyTiling(sel: Selection, tiles: seq<nat>, pos: nat, hi: nat)
    requires Tiling(sel, tiles, pos, hi)
    ensures tiles == [] <==> pos == hi + 1
  {
  }

  /** Extending an optimal rest by one fragment is optimal among tilings that start with it. */
  lemma ExtendOptimal(c: Catalog, sel: Selection, rest: Cover, pos: nat, hi: nat, w: nat)
    requires Placeable(sel, pos, hi, w) && Optimal(c, sel, rest, pos + w, hi)
    ensures var cost := FragmentCost(c, RangeKey(w, pos), sel) + rest.cost +
      if rest.tiles == [] then 0 else JOIN_CHARGE;
      && Tiling(sel, [w] + rest.tiles, pos, hi)
      && cost == TilingCost(c, sel, [w] + rest.tiles, pos)
      && forall tiles :: Tiling(sel, tiles, pos, hi) && tiles != [] && tiles[0] == w ==>
           Beats(c, sel, Cover(cost, [w] + rest.tiles), tiles, pos)
  {
    var all := [w] + rest.tiles;
    assert all[1..] == rest.tiles;
    forall tiles | Tiling(sel, tiles, pos, hi) && tiles != [] && tiles[0] == w
      ensures Beats(c, sel, Cover(TilingCost(c, sel, all, pos), all), tiles, pos)
    {
      assert Beats(c, sel, rest, tiles[1..], pos + w);
      EmptyTiling(sel, tiles[1..], pos + w, hi);
      EmptyTiling(sel, rest.tiles, pos + w, hi);
    }
  }

  /** The cover that puts one fragment in front of the rest. */
  function InFront(c: Catalog, sel: Selection, rest: Cover, pos: nat, w: nat): Cover {
    Cover(FragmentCost(c, RangeKey(w, pos), sel) + rest.cost + (if rest.tiles == [] then 0 else JOIN_CHARGE),
          [w] + rest.tiles)
  }

  function Improved(best: Option<Cover>, cover: Cover): Option<Cover> {
    if best.None? || Better(cover.cost, |cover.tiles|, best.value.cost, |best.value.tiles|) then Some(cover) else best
  }

  /** Trying the next width. */
  lemma WidthTried(c: Catalog, sel: Selection, best: Option<Cover>, rest: Cover, pos: nat, hi: nat, i: nat)
    requires i < 4 && BestOfFirst(c, sel, best, pos, hi, i)
    requires Placeable(sel, pos, hi, WIDTHS[i]) && Optimal(c, sel, rest, pos + WIDTHS[i], hi)
    ensures BestOfFirst(c, sel, Improved(best, InFront(c, sel, rest, pos, WIDTHS[i])), pos, hi, i + 1)
  {
    hide FragmentCost;
    ExtendOptimal(c, sel, rest, pos, hi, WIDTHS[i]);
  }

  lemma WidthSkipped(c: Catalog, sel: Selection, best: Option<Cover>, pos: nat, hi: nat, i: nat)
    requires i < 4 && BestOfFirst(c, sel, best, pos, hi, i) && !Placeable(sel, pos, hi, WIDTHS[i])
    ensures BestOfFirst(c, sel, best, pos, hi, i + 1)
  {
  }

  lemma EndIsOptimal(c: Catalog, sel: Selection, hi: nat)
    ensures Optimal(c, sel, Cover(0, []), hi + 1, hi)
  {
  }

  /** What the best so far has in front: one of the first i widths, the chosen
      cover behind it, and strictly less cost than any narrower start. */
  ghost predicate ChosenOfFirst(c: Catalog, sel: Selection, best: Option<Cover>, pos: nat, hi: nat, i: nat)
    requires i <= 4
  {
    best.Some? ==>
      && best.value.tiles != [] && best.value.tiles[0] in WIDTHS[..i]
      && Chosen(c, sel, Rest(c, sel, best.value, pos), pos + best.value.tiles[0], hi)
      && forall tiles :: Tiling(sel, tiles, pos, hi) && tiles != [] && tiles[0] < best.value.tiles[0] ==>
           StrictlyBeats(c, sel, best.value, tiles, pos)
  }

  lemma ChosenIsOptimal(c: Catalog, sel: Selection, cover: Cover, pos: nat, hi: nat)
    requires Chosen(c, sel, cover, pos, hi)
    ensures Optimal(c, sel, cover, pos, hi) && cover.cost == TilingCost(c, sel, cover.tiles, pos)
  {
  }

  lemma EndIsChosen(c: Catalog, sel: Selection, hi: nat)
    ensures Chosen(c, sel, Cover(0, []), hi + 1, hi)
  {
    EndIsOptimal(c, sel, hi);
  }

  /** A narrower start is among the widths tried before. */
  lemma NarrowerWasTried(sel: Selection, tiles: seq<nat>, pos: nat, hi: nat, i: nat)
    requires i < 4 && Tiling(sel, tiles, pos, hi) && tiles != [] && tiles[0] < WIDTHS[i]
    ensures tiles[0] in WIDTHS[..i]
  {
  }

  lemma ChoiceSkipped(c: Catalog, sel: Selection, best: Option<Cover>, pos: nat, hi: nat, i: nat)
    requires i < 4 && ChosenOfFirst(c, sel, best, pos, hi, i)
    ensures ChosenOfFirst(c, sel, best, pos, hi, i + 1)
  {
    assert WIDTHS[..i + 1] == WIDTHS[..i] + [WIDTHS[i]];
  }

  /** A width that is strictly better than the best so far is strictly better than every narrower start. */
  lemma TakenIsChosen(c: Catalog, sel: Selection, best: Option<Cover>, front: Cover, pos: nat, hi: nat, i: nat)
    requires i < 4 && BestOfFirst(c, sel, best, pos, hi, i)
    requires best.None? || Better(front.cost, |front.tiles|, best.value.cost, |best.value.tiles|)
    requires front.tiles != [] && front.tiles[0] == WIDTHS[i]
    requires Chosen(c, sel, Rest(c, sel, front, pos), pos + WIDTHS[i], hi)
    ensures ChosenOfFirst(c, sel, Some(front), pos, hi, i + 1)
  {
    hide Chosen, Rest, TilingCost, Tiling;
    assert WIDTHS[..i + 1] == WIDTHS[..i] + [WIDTHS[i]];
    forall tiles | Tiling(sel, tiles, pos, hi) && tiles != [] && tiles[0] < WIDTHS[i]
      ensures StrictlyBeats(c, sel, front, tiles, pos)
    {
      NarrowerWasTried(sel, tiles, pos, hi, i);
      assert best.Some? && Beats(c, sel, best.value, tiles, pos);
    }
  }

  /** The next width is taken only when it is strictly better. */
  lemma ChoiceTried(c: Catalog, sel: Selection, best: Option<Cover>, rest: Cover, pos: nat, hi: nat, i: nat)
    requires i < 4 && BestOfFirst(c, sel, best, pos, hi, i) && ChosenOfFirst(c, sel, best, pos, hi, i)
    requires Placeable(sel, pos, hi, WIDTHS[i]) && Chosen(c, sel, rest, pos + WIDTHS[i], hi)
    ensures ChosenOfFirst(c, sel, Improved(best, InFront(c, sel, rest, pos, WIDTHS[i])), pos, hi, i + 1)
  {
    hide FragmentCost, Placeable, Chosen, BestOfFirst, ChosenOfFirst, TilingCost, Better;
    var w, front := WIDTHS[i], InFront(c, sel, rest, pos, WIDTHS[i]);
    ChosenIsOptimal(c, sel, rest, pos + w, hi);
    assert front.tiles[1..] == rest.tiles;
    if best.None? || Better(front.cost, |front.tiles|, best.value.cost, |best.value.tiles|) {
      TakenIsChosen(c, sel, best, front, pos, hi, i);
    } else {
      ChoiceSkipped(c, sel, best, pos, hi, i);
    }
  }

  lemma BestIsChosen(c: Catalog, sel: Selection, best: Option<Cover>, pos: nat, hi: nat)
    requires best.Some? && Optimal(c, sel, best.value, pos, hi) && ChosenOfFirst(c, sel, best, pos, hi, 4)
    ensures Chosen(c, sel, best.value, pos, hi)
  {
  }

  ghost predicate Tried(c: Catalog, sel: Selection, best: Option<Cover>, pos: nat, hi: nat, i: nat)
    requires i <= 4
  {
    BestOfFirst(c, sel, best, pos, hi, i) && ChosenOfFirst(c, sel, best, pos, hi, i)
  }

  lemma NothingTried(c: Catalog, sel: Selection, pos: nat, hi: nat)
    ensures Tried(c, sel, None, pos, hi, 0)
  {
  }

  /** One width, given the chosen cover behind it if it can be placed. */
  lemma TryWidth(c: Catalog, sel: Selection, best: Option<Cover>, rest: Option<Cover>, pos: nat, hi: nat, i: nat)
    returns (next: Option<Cover>)
    requires i < 4 && Tried(c, sel, best, pos, hi, i)
    requires Placeable(sel, pos, hi, WIDTHS[i]) ==> rest.Some? && Chosen(c, sel, rest.value, pos + WIDTHS[i], hi)
    ensures Tried(c, sel, next, pos, hi, i + 1)
    ensures next ==
      if Placeable(sel, pos, hi, WIDTHS[i]) then Improved(best, InFront(c, sel, rest.value, pos, WIDTHS[i])) else best
  {
    hide FragmentCost, Optimal, Chosen, BestOfFirst, ChosenOfFirst, Placeable, Better, InFront, Improved;
    if Placeable(sel, pos, hi, WIDTHS[i]) {
      ChosenIsOptimal(c, sel, rest.value, pos + WIDTHS[i], hi);
      WidthTried(c, sel, best, rest.value, pos, hi, i);
      ChoiceTried(c, sel, best, rest.value, pos, hi, i);
      next := Improved(best, InFront(c, sel, rest.value, pos, WIDTHS[i]));
    } else {
      WidthSkipped(c, sel, best, pos, hi, i);
      ChoiceSkipped(c, sel, best, pos, hi, i);
      next := best;
    }
  }

  lemma AllTried(c: Catalog, sel: Selection, best: Option<Cover>, pos: nat, hi: nat)
    requires pos <= hi && Tried(c, sel, best, pos, hi, 4)
    ensures best.Some? && Chosen(c, sel, best.value, pos, hi)
  {
    hide Optimal, Chosen, BestOfFirst, ChosenOfFirst;
    BestIsOptimal(c, sel, best, pos, hi);
    BestIsChosen(c, sel, best, pos, hi);
  }

  lemma PlaceableFits(sel: Selection, pos: nat, hi: nat, w: nat)
    requires Placeable(sel, pos, hi, w)
    ensures w > 0 && pos + w <= hi + 1
  {
  }

  lemma {:induction false} ChosenExists(c: Catalog, sel: Selection, pos: nat, hi: nat) returns (cover: Cover)
    requires pos <= hi + 1
    ensures Chosen(c, sel, cover, pos, hi)
    decreases hi + 1 - pos
  {
    if pos == hi + 1 {
      EndIsChosen(c, sel, hi);
      return Cover(0, []);
    }
    hide Chosen, Tried, Placeable;
    var best: Option<Cover> := None;
    NothingTried(c, sel, pos, hi);
    for i := 0 to 4
      invariant Tried(c, sel, best, pos, hi, i)
    {
      var rest: Option<Cover> := None;
      if Placeable(sel, pos, hi, WIDTHS[i]) {
        PlaceableFits(sel, pos, hi, WIDTHS[i]);
        var behind := ChosenExists(c, sel, pos + WIDTHS[i], hi);
        rest := Some(behind);
      }
      best := TryWidth(c, sel, best, rest, pos, hi, i);
    }
    AllTried(c, sel, best, pos, hi);
    cover := best.value;
  }

  /** There is one such cover. */
  lemma {:induction false} ChosenIsUnique(c: Catalog, sel: Selection, pos: nat, hi: nat, x: Cover, y: Cover)
    requires Chosen(c, sel, x, pos, hi) && Chosen(c, sel, y, pos, hi)
    ensures x == y
    decreases |x.tiles|
  {
    LeastCostIsUnique(c, sel, pos, hi, x, y);
    if x.tiles != [] {
      FirstIsNarrowest(c, sel, pos, hi, x, y);
      FirstIsNarrowest(c, sel, pos, hi, y, x);
      ChosenIsUnique(c, sel, pos + x.tiles[0], hi, Rest(c, sel, x, pos), Rest(c, sel, y, pos));
      assert x.tiles == [x.tiles[0]] + x.tiles[1..] && y.tiles == [y.tiles[0]] + y.tiles[1..];
    }
  }

  lemma FirstIsNarrowest(c: Catalog, sel: Selection, pos: nat, hi: nat, x: Cover, y: Cover)
    requires Chosen(c, sel, x, pos, hi) && Optimal(c, sel, y, pos, hi) && x.tiles != [] && y.tiles != []
    ensures x.tiles[0] <= y.tiles[0]
  {
    assert Beats(c, sel, y, x.tiles, pos);
    assert y.tiles[0] < x.tiles[0] ==> StrictlyBeats(c, sel, x, y.tiles, pos);
  }

  /** cover: fills the table from the right end; ties go to fewer fragments, and
      then to the narrower first one. */
  method ComputeCover(c: Catalog, lo: nat, hi: nat, sel: Selection) returns (cover: Cover)
    requires lo <= hi
    ensures Optimal(c, sel, cover, lo, hi) && Chosen(c, sel, cover, lo, hi)
  {
    hide Optimal, Chosen, Tried, FragmentCost;
    var dp := new Option<Cover>[hi + 2](_ => None);
    dp[hi + 1] := Some(Cover(0, []));
    EndIsChosen(c, sel, hi);
    var pos := hi + 1;
    while pos > lo
      invariant lo <= pos <= hi + 1
      invariant forall p :: pos <= p <= hi + 1 ==> dp[p].Some? && Chosen(c, sel, dp[p].value, p, hi)
      invariant forall p :: lo <= p < pos ==> dp[p].None?
    {
      pos := pos - 1;
      NothingTried(c, sel, pos, hi);
      for i := 0 to 4
        invariant forall p :: pos < p <= hi + 1 ==> dp[p].Some? && Chosen(c, sel, dp[p].value, p, hi)
        invariant forall p :: lo <= p < pos ==> dp[p].None?
        invariant Tried(c, sel, dp[pos], pos, hi, i)
      {
        var w := WIDTHS[i];
        if Placeable(sel, pos, hi, w) {
          var rest := dp[pos + w].value;
          var cost := FragmentCost(c, RangeKey(w, pos), sel) + rest.cost + if rest.tiles == [] then 0 else JOIN_CHARGE;
          var tiles := [w] + rest.tiles;
          ghost var next := TryWidth(c, sel, dp[pos], Some(rest), pos, hi, i);
          if dp[pos].None? || Better(cost, |tiles|, dp[pos].value.cost, |dp[pos].value.tiles|) {
            dp[pos] := Some(Cover(cost, tiles));
          }
        } else {
          ghost var next := TryWidth(c, sel, dp[pos], None, pos, hi, i);
        }
      }
      AllTried(c, sel, dp[pos], pos, hi);
    }
    ChosenIsOptimal(c, sel, dp[lo].value, lo, hi);
    cover := dp[lo].value;
  }

  /** Width one is always placeable, so a cover exists and the best one is optimal. */
  lemma BestIsOptimal(c: Catalog, sel: Selection, best: Option<Cover>, pos: nat, hi: nat)
    requires pos <= hi && BestOfFirst(c, sel, best, pos, hi, 4)
    ensures best.Some? && Optimal(c, sel, best.value, pos, hi)
  {
    var ones := Ones(sel, pos, hi);
    assert WIDTHS[..4] == WIDTHS;
  }

  lemma {:induction false} Ones(sel: Selection, pos: nat, hi: nat) returns (tiles: seq<nat>)
    requires pos <= hi + 1
    ensures Tiling(sel, tiles, pos, hi)
    decreases hi + 1 - pos
  {
    if pos == hi + 1 {
      tiles := [];
    } else {
      var rest := Ones(sel, pos + 1, hi);
      tiles := [1] + rest;
      assert tiles[1..] == rest;
    }
  }

  lemma OptimalExists(c: Catalog, sel: Selection, pos: nat, hi: nat) returns (cover: Cover)
    requires pos <= hi + 1
    ensures Optimal(c, sel, cover, pos, hi)
  {
    cover := ChosenExists(c, sel, pos, hi);
    ChosenIsOptimal(c, sel, cover, pos, hi);
  }

  lemma SomeOptimal(c: Catalog, sel: Selection, lo: nat, hi: nat)
    requires lo <= hi
    ensures exists cover :: Optimal(c, sel, cover, lo, hi)
  {
    var cover := OptimalExists(c, sel, lo, hi);
  }

  /** The least cost of covering [lo, hi]. */
  ghost function LeastCost(c: Catalog, sel: Selection, lo: nat, hi: nat): (cost: int)
    requires lo <= hi
    ensures forall cover :: Optimal(c, sel, cover, lo, hi) ==> cover.cost == cost
  {
    SomeOptimal(c, sel, lo, hi);
    var cover :| Optimal(c, sel, cover, lo, hi);
    assert forall other :: Optimal(c, sel, other, lo, hi) ==>
      Beats(c, sel, other, cover.tiles, lo) && Beats(c, sel, cover, other.tiles, lo);
    cover.cost
  }

  // --- A larger selection never costs more ---

  predicate Within(sel: Selection, more: Selection) {
    sel.ids <= more.ids && sel.packed <= more.packed
  }

  lemma FragmentCostFalls(c: Catalog, key: Key, sel: Selection, more: Selection)
    requires Within(sel, more)
    ensures FragmentCost(c, key, more) <= FragmentCost(c, key, sel)
  {
  }

  lemma {:induction false} TilingCostFalls(c: Catalog, sel: Selection, more: Selection, tiles: seq<nat>, pos: nat,
                                           hi: nat)
    requires Within(sel, more) && Tiling(sel, tiles, pos, hi)
    ensures Tiling(more, tiles, pos, hi)
    ensures TilingCost(c, more, tiles, pos) <= TilingCost(c, sel, tiles, pos)
    decreases |tiles|
  {
    if tiles != [] {
      FragmentCostFalls(c, RangeKey(tiles[0], pos), sel, more);
      TilingCostFalls(c, sel, more, tiles[1..], pos + tiles[0], hi);
    }
  }

  lemma LeastCostIsUnique(c: Catalog, sel: Selection, lo: nat, hi: nat, x: Cover, y: Cover)
    requires Optimal(c, sel, x, lo, hi) && Optimal(c, sel, y, lo, hi)
    ensures x.cost == y.cost && |x.tiles| == |y.tiles|
  {
    assert Beats(c, sel, x, y.tiles, lo) && Beats(c, sel, y, x.tiles, lo);
  }

  /** More fragments, or better stored fragments, never make the best cover dearer. */
  lemma LeastCostFalls(c: Catalog, sel: Selection, more: Selection, lo: nat, hi: nat)
    requires Within(sel, more) && lo <= hi
    ensures LeastCost(c, more, lo, hi) <= LeastCost(c, sel, lo, hi)
  {
    var x := OptimalExists(c, sel, lo, hi);
    var y := OptimalExists(c, more, lo, hi);
    TilingCostFalls(c, sel, more, x.tiles, lo, hi);
    assert Beats(c, more, y, x.tiles, lo);
  }

  // --- The keys of a cover partition the range ---

  /** The fragment of a tiling that holds a bin. */
  ghost predicate InTile(tiles: seq<nat>, pos: nat, i: nat, bin: nat) {
    i < |tiles| && TileStart(tiles, pos, i) <= bin < TileStart(tiles, pos, i) + tiles[i]
  }

  function TileStart(tiles: seq<nat>, pos: nat, i: nat): nat
    requires i <= |tiles|
  {
    if i == 0 then pos else TileStart(tiles[1..], pos + tiles[0], i - 1)
  }

  function Keys(tiles: seq<nat>, pos: nat): (keys: seq<Key>)
    ensures |keys| == |tiles|
    ensures forall i :: 0 <= i < |tiles| ==> keys[i] == RangeKey(tiles[i], TileStart(tiles, pos, i))
  {
    if tiles == [] then [] else
      var rest := Keys(tiles[1..], pos + tiles[0]);
      assert forall i :: 1 <= i < |tiles| ==> tiles[1..][i - 1] == tiles[i];
      [RangeKey(tiles[0], pos)] + rest
  }

  /** Every bin of the range lies in exactly one fragment; no other bin lies in any. */
  lemma {:induction false} TilesPartition(sel: Selection, tiles: seq<nat>, pos: nat, hi: nat, bin: nat)
    requires Tiling(sel, tiles, pos, hi)
    ensures pos <= bin <= hi <==> exists i: nat :: InTile(tiles, pos, i, bin)
    ensures forall i: nat, j: nat :: InTile(tiles, pos, i, bin) && InTile(tiles, pos, j, bin) ==> i == j
    decreases |tiles|
  {
    if tiles != [] {
      var rest := tiles[1..];
      TilesPartition(sel, rest, pos + tiles[0], hi, bin);
      assert InTile(tiles, pos, 0, bin) <==> pos <= bin < pos + tiles[0];
      forall i: nat ensures i > 0 ==> (InTile(tiles, pos, i, bin) <==> InTile(rest, pos + tiles[0], i - 1, bin)) {
      }
      if pos + tiles[0] <= bin <= hi {
        var i: nat :| InTile(rest, pos + tiles[0], i, bin);
        assert InTile(tiles, pos, i + 1, bin);
      }
    }
  }

  /** A fragment starts inside the range and is not empty. */
  lemma {:induction false} TileInRange(sel: Selection, tiles: seq<nat>, pos: nat, hi: nat, i: nat)
    requires Tiling(sel, tiles, pos, hi) && i < |tiles|
    ensures pos <= TileStart(tiles, pos, i) <= hi && tiles[i] > 0
    decreases i
  {
    if i > 0 {
      TileInRange(sel, tiles[1..], pos + tiles[0], hi, i - 1);
    }
  }

  // --- Covers laid out bin by bin ---

  /** Fragments of widths `tiles` begin at `starts`, and `totals` are their running costs. */
  ghost predicate Laid(c: Catalog, sel: Selection, tiles: seq<nat>, starts: seq<nat>, totals: seq<int>, lo: nat,
                       hi: nat) {
    && |starts| == |totals| == |tiles| + 1 && starts[0] == lo && starts[|tiles|] == hi + 1 && totals[0] == 0
    && forall i :: 0 <= i < |tiles| ==> Step(c, sel, tiles, starts, totals, i)
  }

  ghost predicate Step(c: Catalog, sel: Selection, tiles: seq<nat>, starts: seq<nat>, totals: seq<int>, i: nat)
    requires i < |tiles| && |starts| == |totals| == |tiles| + 1
  {
    var key := RangeKey(tiles[i], starts[i]);
    && (tiles[i] == 1 || tiles[i] == 2 || tiles[i] == 4 || tiles[i] == 8) && starts[i] % tiles[i] == 0
    && (tiles[i] > 1 ==> key in sel.ids || key in sel.packed)
    && starts[i + 1] == starts[i] + tiles[i]
    && totals[i + 1] == totals[i] + FragmentCost(c, key, sel) + (if i + 1 < |tiles| then 1500 else 0)
  }

  lemma StepMeans(c: Catalog, sel: Selection, tiles: seq<nat>, starts: seq<nat>, totals: seq<int>, i: nat)
    requires i < |tiles| && |starts| == |totals| == |tiles| + 1
    ensures Step(c, sel, tiles, starts, totals, i) <==>
      && tiles[i] in WIDTHS && starts[i] % tiles[i] == 0 && Admitted(sel, tiles[i], starts[i])
      && starts[i + 1] == starts[i] + tiles[i]
      && totals[i + 1] == totals[i] + FragmentCost(c, RangeKey(tiles[i], starts[i]), sel) +
                          (if i + 1 < |tiles| then JOIN_CHARGE else 0)
  {
    hide FragmentCost;
  }

  lemma StepInWords(c: Catalog, sel: Selection, tiles: seq<nat>, starts: seq<nat>, totals: seq<int>, i: nat)
    requires i < |tiles| && |starts| == |totals| == |tiles| + 1
    ensures Step(c, sel, tiles, starts, totals, i) <==>
      var w, key := tiles[i], RangeKey(tiles[i], starts[i]);
      && (w == 1 || w == 2 || w == 4 || w == 8) && starts[i] % w == 0
      && (w > 1 ==> key in sel.ids || key in sel.packed)
      && starts[i + 1] == starts[i] + w
      && totals[i + 1] == totals[i] + FragmentCost(c, key, sel) + (if i + 1 < |tiles| then 1500 else 0)
  {
    hide FragmentCost;
  }

  lemma TailIsLaid(c: Catalog, sel: Selection, tiles: seq<nat>, starts: seq<nat>, totals: seq<int>, lo: nat, hi: nat)
    returns (rest: seq<int>)
    requires Laid(c, sel, tiles, starts, totals, lo, hi) && tiles != []
    ensures Laid(c, sel, tiles[1..], starts[1..], rest, lo + tiles[0], hi)
    ensures totals[|tiles|] == totals[1] + rest[|tiles| - 1]
  {
    hide FragmentCost;
    assert Step(c, sel, tiles, starts, totals, 0);
    rest := seq(|tiles|, i requires 0 <= i < |tiles| && |totals| == |tiles| + 1 => totals[i + 1] - totals[1]);
    forall i | 0 <= i < |tiles[1..]| ensures Step(c, sel, tiles[1..], starts[1..], rest, i) {
      assert Step(c, sel, tiles, starts, totals, i + 1);
    }
  }

  lemma {:induction false} StartsRise(c: Catalog, sel: Selection, tiles: seq<nat>, starts: seq<nat>,
                                      totals: seq<int>, lo: nat, hi: nat, i: nat)
    requires Laid(c, sel, tiles, starts, totals, lo, hi) && i <= |tiles|
    ensures starts[i] <= hi + 1
    decreases |tiles| - i
  {
    if i < |tiles| {
      assert Step(c, sel, tiles, starts, totals, i);
      StartsRise(c, sel, tiles, starts, totals, lo, hi, i + 1);
    }
  }

  lemma {:induction false} LaidIsTiling(c: Catalog, sel: Selection, tiles: seq<nat>, starts: seq<nat>,
                                        totals: seq<int>, lo: nat, hi: nat)
    requires Laid(c, sel, tiles, starts, totals, lo, hi)
    ensures Tiling(sel, tiles, lo, hi) && TilingCost(c, sel, tiles, lo) == totals[|tiles|]
    decreases |tiles|
  {
    hide FragmentCost;
    if tiles != [] {
      var rest := TailIsLaid(c, sel, tiles, starts, totals, lo, hi);
      LaidIsTiling(c, sel, tiles[1..], starts[1..], rest, lo + tiles[0], hi);
      assert Step(c, sel, tiles, starts, totals, 0);
      StepMeans(c, sel, tiles, starts, totals, 0);
      StartsRise(c, sel, tiles, starts, totals, lo, hi, 1);
    }
  }

  lemma HeadIsLaid(c: Catalog, sel: Selection, tiles: seq<nat>, behind: seq<nat>, rest: seq<int>, lo: nat, hi: nat)
    returns (starts: seq<nat>, totals: seq<int>)
    requires tiles != [] && Placeable(sel, lo, hi, tiles[0])
    requires Laid(c, sel, tiles[1..], behind, rest, lo + tiles[0], hi)
    ensures Laid(c, sel, tiles, starts, totals, lo, hi)
    ensures totals[|tiles|] == rest[|tiles| - 1] + FragmentCost(c, RangeKey(tiles[0], lo), sel) +
                               (if |tiles| == 1 then 0 else JOIN_CHARGE)
  {
    hide FragmentCost;
    var first := FragmentCost(c, RangeKey(tiles[0], lo), sel) + (if |tiles| == 1 then 0 else JOIN_CHARGE);
    starts := [lo] + behind;
    totals := [0] + seq(|rest|, i requires 0 <= i < |rest| => first + rest[i]);
    forall i | 0 <= i < |tiles| ensures Step(c, sel, tiles, starts, totals, i) {
      if i == 0 {
        StepMeans(c, sel, tiles, starts, totals, 0);
      } else {
        assert Step(c, sel, tiles[1..], behind, rest, i - 1);
      }
    }
  }

  lemma {:induction false} TilingIsLaid(c: Catalog, sel: Selection, tiles: seq<nat>, lo: nat, hi: nat)
    returns (starts: seq<nat>, totals: seq<int>)
    requires Tiling(sel, tiles, lo, hi)
    ensures Laid(c, sel, tiles, starts, totals, lo, hi) && totals[|tiles|] == TilingCost(c, sel, tiles, lo)
    decreases |tiles|
  {
    hide FragmentCost;
    if tiles == [] {
      starts, totals := [lo], [0];
    } else {
      var behind, rest := TilingIsLaid(c, sel, tiles[1..], lo + tiles[0], hi);
      starts, totals := HeadIsLaid(c, sel, tiles, behind, rest, lo, hi);
    }
  }

  /** Of the covers that cost as little in as few fragments, the chosen one is narrower where they first differ. */
  lemma {:induction false} ChosenIsNarrowest(c: Catalog, sel: Selection, cover: Cover, tiles: seq<nat>, lo: nat,
                                             hi: nat)
    requires Chosen(c, sel, cover, lo, hi) && Tiling(sel, tiles, lo, hi)
    requires TilingCost(c, sel, tiles, lo) == cover.cost == TilingCost(c, sel, cover.tiles, lo)
    requires |tiles| == |cover.tiles|
    ensures tiles == cover.tiles || exists i :: NarrowerAt(cover.tiles, tiles, i)
    decreases |tiles|
  {
    hide FragmentCost, Optimal;
    if tiles != [] && tiles[0] == cover.tiles[0] {
      var rest := Rest(c, sel, cover, lo);
      RestCost(c, sel, cover, tiles, lo);
      ChosenIsNarrowest(c, sel, rest, tiles[1..], lo + tiles[0], hi);
      LaterIsNarrower(cover.tiles, tiles);
    } else if tiles != [] {
      assert tiles[0] < cover.tiles[0] ==> StrictlyBeats(c, sel, cover, tiles, lo);
      assert NarrowerAt(cover.tiles, tiles, 0);
    }
  }

  lemma RestCost(c: Catalog, sel: Selection, cover: Cover, tiles: seq<nat>, lo: nat)
    requires cover.cost == TilingCost(c, sel, cover.tiles, lo) == TilingCost(c, sel, tiles, lo)
    requires |tiles| == |cover.tiles| > 0 && tiles[0] == cover.tiles[0]
    ensures TilingCost(c, sel, tiles[1..], lo + tiles[0]) == Rest(c, sel, cover, lo).cost
  {
    hide FragmentCost;
  }

  lemma LaterIsNarrower(tiles: seq<nat>, other: seq<nat>)
    requires tiles != [] && other != [] && tiles[0] == other[0]
    requires other[1..] == tiles[1..] || exists i :: NarrowerAt(tiles[1..], other[1..], i)
    ensures other == tiles || exists i :: NarrowerAt(tiles, other, i)
  {
    assert tiles == [tiles[0]] + tiles[1..] && other == [tiles[0]] + other[1..];
    if other[1..] != tiles[1..] {
      var i: nat :| NarrowerAt(tiles[1..], other[1..], i);
      assert tiles[..i + 1] == [tiles[0]] + tiles[1..][..i];
      assert other[..i + 1] == [tiles[0]] + other[1..][..i];
      assert NarrowerAt(tiles, other, i + 1);
    }
  }

  ghost predicate NarrowerAt(tiles: seq<nat>, other: seq<nat>, i: nat) {
    i < |tiles| && i < |other| && tiles[..i] == other[..i] && tiles[i] < other[i]
  }

  /** What the dynamic program returns: consecutive fragments of width 1, 2, 4 or 8,
      each at a multiple of its width, the wide ones stored; their costs with the
      join charges add up to the cover's. */
  lemma CoverMeans(c: Catalog, sel: Selection, cover: Cover, lo: nat, hi: nat)
    returns (starts: seq<nat>, totals: seq<int>)
    requires Optimal(c, sel, cover, lo, hi)
    ensures |starts| == |totals| == |cover.tiles| + 1
    ensures starts[0] == lo && starts[|cover.tiles|] == hi + 1
    ensures totals[0] == 0 && totals[|cover.tiles|] == cover.cost
    ensures forall i :: 0 <= i < |cover.tiles| ==>
      cover.tiles[i] == 1 || cover.tiles[i] == 2 || cover.tiles[i] == 4 || cover.tiles[i] == 8
    ensures forall i :: 0 <= i < |cover.tiles| ==>
      starts[i] % cover.tiles[i] == 0 && starts[i + 1] == starts[i] + cover.tiles[i]
    ensures forall i :: 0 <= i < |cover.tiles| && cover.tiles[i] > 1 ==>
      RangeKey(cover.tiles[i], starts[i]) in sel.ids || RangeKey(cover.tiles[i], starts[i]) in sel.packed
    ensures forall i :: 0 <= i < |cover.tiles| ==>
      totals[i + 1] == totals[i] + FragmentCost(c, RangeKey(cover.tiles[i], starts[i]), sel) +
                       (if i + 1 < |cover.tiles| then 1500 else 0)
  {
    hide FragmentCost, Step;
    starts, totals := TilingIsLaid(c, sel, cover.tiles, lo, hi);
    forall i | 0 <= i < |cover.tiles|
      ensures cover.tiles[i] == 1 || cover.tiles[i] == 2 || cover.tiles[i] == 4 || cover.tiles[i] == 8
      ensures starts[i] % cover.tiles[i] == 0 && starts[i + 1] == starts[i] + cover.tiles[i]
      ensures cover.tiles[i] > 1 ==>
        RangeKey(cover.tiles[i], starts[i]) in sel.ids || RangeKey(cover.tiles[i], starts[i]) in sel.packed
      ensures totals[i + 1] == totals[i] + FragmentCost(c, RangeKey(cover.tiles[i], starts[i]), sel) +
                           (if i + 1 < |cover.tiles| then 1500 else 0)
    {
      StepInWords(c, sel, cover.tiles, starts, totals, i);
    }
  }

  /** No other such layout costs less, or as much in fewer fragments; and of those
      that cost as much in as many, it is narrower where they first differ. */
  lemma CoverIsBest(c: Catalog, sel: Selection, cover: Cover, lo: nat, hi: nat, tiles: seq<nat>, starts: seq<nat>,
                    totals: seq<int>)
    requires Chosen(c, sel, cover, lo, hi)
    requires |starts| == |totals| == |tiles| + 1 && starts[0] == lo && starts[|tiles|] == hi + 1 && totals[0] == 0
    requires forall i :: 0 <= i < |tiles| ==> tiles[i] == 1 || tiles[i] == 2 || tiles[i] == 4 || tiles[i] == 8
    requires forall i :: 0 <= i < |tiles| ==> starts[i] % tiles[i] == 0 && starts[i + 1] == starts[i] + tiles[i]
    requires forall i :: 0 <= i < |tiles| && tiles[i] > 1 ==>
      RangeKey(tiles[i], starts[i]) in sel.ids || RangeKey(tiles[i], starts[i]) in sel.packed
    requires forall i :: 0 <= i < |tiles| ==>
      totals[i + 1] == totals[i] + FragmentCost(c, RangeKey(tiles[i], starts[i]), sel) +
                       (if i + 1 < |tiles| then 1500 else 0)
    ensures cover.cost <= totals[|tiles|]
    ensures cover.cost == totals[|tiles|] ==> |cover.tiles| <= |tiles|
    ensures cover.cost == totals[|tiles|] && |cover.tiles| == |tiles| && cover.tiles != tiles ==>
      exists i: nat :: i < |tiles| && cover.tiles[..i] == tiles[..i] && cover.tiles[i] < tiles[i]
  {
    hide FragmentCost;
    ChosenIsOptimal(c, sel, cover, lo, hi);
    forall i | 0 <= i < |tiles| ensures Step(c, sel, tiles, starts, totals, i) {
      StepInWords(c, sel, tiles, starts, totals, i);
    }
    LaidIsTiling(c, sel, tiles, starts, totals, lo, hi);
    assert Beats(c, sel, cover, tiles, lo);
    if cover.cost == totals[|tiles|] && |cover.tiles| == |tiles| && cover.tiles != tiles {
      ChosenIsNarrowest(c, sel, cover, tiles, lo, hi);
      var i: nat :| NarrowerAt(cover.tiles, tiles, i);
    }
  }

  // --- What storage saves ---

  /** A packed copy saves eight per row; a pair that is not stored costs its two
      postings and 1500 more than a stored one. */
  lemma StorageSaves(c: Catalog, key: Key, sel: Selection)
    requires key !in sel.packed
    ensures FragmentCost(c, key, Selection(sel.ids, sel.packed + {key})) == 3500 + 8 * Size(c, key)
    ensures FragmentCost(c, key, Selection(sel.ids + {key}, sel.packed)) == 3500 + 16 * Size(c, key)
    ensures key !in sel.ids && !key.PairKey? ==> FragmentCost(c, key, sel) == 3500 + 16 * Size(c, key)
    ensures key !in sel.ids && key.PairKey? && |c.bSizes| > 0 ==>
      var a, b := key.p / |c.bSizes|, key.p % |c.bSizes|;
      FragmentCost(c, key, sel) == 5000 + 4 * (At(c.aSizes, a) + At(c.bSizes, b)) + 16 * Size(c, key)
  {
    hide Size;
  }

  /** A range of bins has the rows of its parts. */
  lemma {:induction false} SizeOfRanges(c: Catalog, v: nat, w: nat, start: nat)
    ensures Size(c, RangeKey(v + w, start)) == Size(c, RangeKey(v, start)) + Size(c, RangeKey(w, start + v))
    ensures start < |c.binSizes| ==> Size(c, RangeKey(1, start)) == c.binSizes[start]
    decreases w
  {
    if w > 0 {
      SizeOfRanges(c, v, w - 1, start);
    }
    assert BinRows(c, start, start) == 0;
  }
}

// The integer program has the same optimum as trying every selection.

module AdvisorOptimum {
  import opened Advisor
  import opened AdvisorRows

  predicate Taken(units: nat, x: seq<bool>, e: nat) {
    units + e < |x| && x[units + e]
  }

  /** What the first k edge variables are worth at a point. */
  function Value(units: nat, edges: seq<Edge>, x: seq<bool>, k: nat): real
    requires |x| == units + |edges| && k <= |edges|
  {
    if k == 0 then 0.0
    else Value(units, edges, x, k - 1) + (if Taken(units, x, k - 1) then edges[k - 1].benefit else 0.0)
  }

  function Objective(inst: Instance, edges: seq<Edge>, x: seq<bool>): real
    requires |x| == |inst.costs| + |edges|
  {
    Value(|inst.costs|, edges, x, |edges|)
  }

  // --- The block of a query ---

  function Start(queries: seq<Query>, k: nat): nat
    requires k <= |queries|
  {
    |EdgesUpTo(queries, k)|
  }

  lemma {:induction false} EdgesArePrefix(queries: seq<Query>, k: nat, m: nat)
    requires k <= m <= |queries|
    ensures EdgesUpTo(queries, k) <= EdgesUpTo(queries, m)
  {
    if k < m {
      EdgesArePrefix(queries, k, m - 1);
    }
  }

  lemma StartsInside(inst: Instance, q: nat)
    requires Valid(inst) && q < |inst.queries|
    ensures Start(inst.queries, q) <= Start(inst.queries, q + 1) <= |Edges(inst)|
    ensures ValidQuery(inst.queries[q], |inst.costs|)
    ensures |QueryEdges(q, inst.queries[q].weight, inst.queries[q].savings)|
         == Start(inst.queries, q + 1) - Start(inst.queries, q)
  {
    hide EdgesUpTo, QueryEdges;
    OneBlock(inst.queries, q);
    EdgesArePrefix(inst.queries, q + 1, |inst.queries|);
  }

  lemma OneBlock(queries: seq<Query>, q: nat)
    requires q < |queries|
    ensures Start(queries, q + 1) == Start(queries, q) + |QueryEdges(q, queries[q].weight, queries[q].savings)|
  {
    hide QueryEdges;
  }

  /** An edge between a query's start and the next one is that query's. */
  lemma InsideBlock(inst: Instance, q: nat, e: nat)
    requires Valid(inst) && q < |inst.queries| && Start(inst.queries, q) <= e < Start(inst.queries, q + 1)
    ensures e < |Edges(inst)| &&
      e - Start(inst.queries, q) < |QueryEdges(q, inst.queries[q].weight, inst.queries[q].savings)|
    ensures Edges(inst)[e] == QueryEdges(q, inst.queries[q].weight, inst.queries[q].savings)[e - Start(inst.queries, q)]
    ensures Edges(inst)[e].query == q
  {
    hide QueryEdges;
    StartsInside(inst, q);
    EdgesArePrefix(inst.queries, q + 1, |inst.queries|);
    assert Edges(inst)[e] == EdgesUpTo(inst.queries, q + 1)[e];
    var query := inst.queries[q];
    QueryEdgesAreGood(q, query.weight, query.savings, |inst.costs|);
  }

  lemma BeforeBlock(inst: Instance, q: nat, e: nat)
    requires Valid(inst) && q <= |inst.queries| && e < Start(inst.queries, q)
    ensures e < |Edges(inst)| && Edges(inst)[e].query < q
  {
    EdgesArePrefix(inst.queries, q, |inst.queries|);
    EdgesAreGood(inst, q);
    assert Edges(inst)[e] == EdgesUpTo(inst.queries, q)[e];
  }

  /** Query q's edges are those from its start to the next one. */
  lemma BlockOfQuery(inst: Instance, q: nat, e: nat)
    requires Valid(inst) && q < |inst.queries| && e < |Edges(inst)|
    ensures Edges(inst)[e].query == q <==> Start(inst.queries, q) <= e < Start(inst.queries, q + 1)
  {
    hide EdgesUpTo, Valid;
    StartsInside(inst, q);
    if e < Start(inst.queries, q) {
      BeforeBlock(inst, q, e);
    } else if e < Start(inst.queries, q + 1) {
      InsideBlock(inst, q, e);
    } else {
      LaterEdges(inst, q + 1, |inst.queries|, e);
    }
  }

  /** Edges behind a start belong to that query or a later one. */
  lemma {:induction false} LaterEdges(inst: Instance, k: nat, m: nat, e: nat)
    requires Valid(inst) && k <= m <= |inst.queries|
    requires Start(inst.queries, k) <= e < Start(inst.queries, m)
    ensures EdgesUpTo(inst.queries, m)[e].query >= k
  {
    EdgesArePrefix(inst.queries, k, m);
    if k < m {
      var query := inst.queries[m - 1];
      assert ValidQuery(query, |inst.costs|);
      QueryEdgesAreGood(m - 1, query.weight, query.savings, |inst.costs|);
      if e < Start(inst.queries, m - 1) {
        LaterEdges(inst, k, m - 1, e);
      }
    }
  }

  lemma {:induction false} EdgeComesFrom(q: nat, weight: real, savings: seq<Saving>, e: nat) returns (i: nat)
    requires e < |QueryEdges(q, weight, savings)|
    ensures i < |savings| && QueryEdges(q, weight, savings)[e] == Edge(q, savings[i].target, weight * savings[i].amount)
    ensures QueryEdges(q, weight, savings)[e].benefit > 0.0
  {
    var most := savings[..|savings| - 1];
    if e < |QueryEdges(q, weight, most)| {
      i := EdgeComesFrom(q, weight, most, e);
    } else {
      i := |savings| - 1;
    }
  }

  lemma {:induction false} EdgeExists(q: nat, weight: real, savings: seq<Saving>, i: nat) returns (e: nat)
    requires i < |savings| && weight * savings[i].amount > 0.0
    ensures e < |QueryEdges(q, weight, savings)|
    ensures QueryEdges(q, weight, savings)[e] == Edge(q, savings[i].target, weight * savings[i].amount)
  {
    var most := savings[..|savings| - 1];
    if i < |savings| - 1 {
      e := EdgeExists(q, weight, most, i);
    } else {
      e := |QueryEdges(q, weight, most)|;
    }
  }

  /** A stretch of edges of which only c can be taken. */
  lemma {:induction false} StretchValue(units: nat, edges: seq<Edge>, x: seq<bool>, lo: nat, hi: nat, c: nat)
    requires |x| == units + |edges| && lo <= hi <= |edges|
    requires forall e: nat :: lo <= e < hi && e != c ==> !Taken(units, x, e)
    ensures Value(units, edges, x, hi) ==
      Value(units, edges, x, lo) + (if lo <= c < hi && Taken(units, x, c) then edges[c].benefit else 0.0)
  {
    if lo < hi {
      StretchValue(units, edges, x, lo, hi - 1, c);
    }
  }

  lemma Scaled(w: real, a: real, b: real)
    requires w >= 0.0 && a <= b
    ensures w * a <= w * b
  {
  }

  lemma NextBestValue(queries: seq<Query>, chosen: seq<bool>, k: nat)
    requires k < |queries| && forall q :: 0 <= q < |queries| ==> ValidQuery(queries[q], |chosen|)
    ensures ValidQuery(queries[k], |chosen|)
    ensures BestValue(queries[..k + 1], chosen)
         == BestValue(queries[..k], chosen) + queries[k].weight * BestSaving(queries[k].savings, chosen)
  {
    hide BestSaving, ValidQuery;
    var part := queries[..k + 1];
    assert part[..|part| - 1] == queries[..k] && part[|part| - 1] == queries[k];
  }

  // --- A feasible point is worth no more than its selection ---

  /** A taken edge brings its query no more than the best of the selection. */
  lemma TakenIsBounded(inst: Instance, chosen: seq<bool>, q: nat, c: nat)
    requires Valid(inst) && q < |inst.queries| && |chosen| == |inst.costs|
    requires Start(inst.queries, q) <= c < Start(inst.queries, q + 1)
    ensures c < |Edges(inst)| && ValidQuery(inst.queries[q], |inst.costs|)
    ensures Edges(inst)[c].target < |chosen|
    ensures chosen[Edges(inst)[c].target] ==>
      Edges(inst)[c].benefit <= inst.queries[q].weight * BestSaving(inst.queries[q].savings, chosen)
  {
    hide QueryEdges, EdgesUpTo, Edges, Start, BestSaving;
    var query := inst.queries[q];
    assert ValidQuery(query, |inst.costs|);
    InsideBlock(inst, q, c);
    var i := EdgeComesFrom(q, query.weight, query.savings, c - Start(inst.queries, q));
    BestSavingBounds(query.savings, chosen, i);
    if chosen[query.savings[i].target] {
      Scaled(query.weight, query.savings[i].amount, BestSaving(query.savings, chosen));
    }
  }

  /** Of a query's block at most one edge is taken, and its unit is admitted. */
  lemma OnlyOneTaken(inst: Instance, x: seq<bool>, q: nat, c: nat)
    requires Valid(inst) && q < |inst.queries| && |x| == |inst.costs| + |Edges(inst)|
    requires GoodEdges(inst, Edges(inst)) && MeetsRows(inst, Edges(inst), x)
    requires Start(inst.queries, q) <= c < Start(inst.queries, q + 1) && Taken(|inst.costs|, x, c)
    ensures c < |Edges(inst)| && Edges(inst)[c].target < |inst.costs| && x[Edges(inst)[c].target]
    ensures forall e: nat :: Start(inst.queries, q) <= e < Start(inst.queries, q + 1) && e != c ==>
      !Taken(|inst.costs|, x, e)
  {
    hide CostOf, NoIdleUnit, QueryEdges, EdgesUpTo, Edges, Start;
    InsideBlock(inst, q, c);
    forall e: nat | Start(inst.queries, q) <= e < Start(inst.queries, q + 1) && e != c
      ensures !Taken(|inst.costs|, x, e)
    {
      InsideBlock(inst, q, e);
    }
  }

  lemma BlockIsBounded(inst: Instance, x: seq<bool>, q: nat)
    requires Valid(inst) && q < |inst.queries| && |x| == |inst.costs| + |Edges(inst)|
    requires GoodEdges(inst, Edges(inst)) && MeetsRows(inst, Edges(inst), x)
    ensures Start(inst.queries, q) <= Start(inst.queries, q + 1) <= |Edges(inst)|
    ensures ValidQuery(inst.queries[q], |inst.costs|)
    ensures Value(|inst.costs|, Edges(inst), x, Start(inst.queries, q + 1))
         <= Value(|inst.costs|, Edges(inst), x, Start(inst.queries, q))
            + inst.queries[q].weight * BestSaving(inst.queries[q].savings, x[..|inst.costs|])
  {
    hide MeetsRows, QueryEdges, EdgesUpTo, Edges, Start, BestSaving, Value, GoodEdges;
    var units, edges, query, chosen := |inst.costs|, Edges(inst), inst.queries[q], x[..|inst.costs|];
    var lo, hi := Start(inst.queries, q), Start(inst.queries, q + 1);
    StartsInside(inst, q);
    Scaled(query.weight, 0.0, BestSaving(query.savings, chosen));
    if c: nat :| lo <= c < hi && Taken(units, x, c) {
      OnlyOneTaken(inst, x, q, c);
      StretchValue(units, edges, x, lo, hi, c);
      TakenIsBounded(inst, chosen, q, c);
    } else {
      StretchValue(units, edges, x, lo, hi, hi);
    }
  }

  lemma {:induction false} PointIsBounded(inst: Instance, x: seq<bool>, k: nat)
    requires Valid(inst) && k <= |inst.queries| && |x| == |inst.costs| + |Edges(inst)|
    requires GoodEdges(inst, Edges(inst)) && MeetsRows(inst, Edges(inst), x)
    ensures Start(inst.queries, k) <= |Edges(inst)|
    ensures Value(|inst.costs|, Edges(inst), x, Start(inst.queries, k))
         <= BestValue(inst.queries[..k], x[..|inst.costs|])
  {
    hide MeetsRows, EdgesUpTo, Edges, BestSaving;
    if k == 0 {
      NoEdges(inst);
    } else {
      PointIsBounded(inst, x, k - 1);
      BlockIsBounded(inst, x, k - 1);
      NextBestValue(inst.queries, x[..|inst.costs|], k - 1);
    }
  }

  lemma NoEdges(inst: Instance)
    ensures Start(inst.queries, 0) == 0
  {
  }

  // --- Every selection in the budget has a feasible point of its value ---

  /** Edge e gives its query all that the selection can save it. */
  ghost predicate IsPick(inst: Instance, chosen: seq<bool>, q: nat, e: nat)
    requires Valid(inst) && |chosen| == |inst.costs| && q < |inst.queries|
    requires forall k :: 0 <= k < |inst.queries[q].savings| ==> inst.queries[q].savings[k].target < |chosen|
  {
    && e < |Edges(inst)| && Edges(inst)[e].query == q
    && Edges(inst)[e].target < |chosen| && chosen[Edges(inst)[e].target]
    && Edges(inst)[e].benefit == inst.queries[q].weight * BestSaving(inst.queries[q].savings, chosen)
  }

  ghost predicate HasPick(inst: Instance, chosen: seq<bool>, q: nat)
    requires Valid(inst) && |chosen| == |inst.costs| && q < |inst.queries|
  {
    QueryTargets(inst, q);
    exists e: nat :: IsPick(inst, chosen, q, e)
  }

  lemma QueryTargets(inst: Instance, q: nat)
    requires Valid(inst) && q < |inst.queries|
    ensures forall k :: 0 <= k < |inst.queries[q].savings| ==> inst.queries[q].savings[k].target < |inst.costs|
  {
    assert ValidQuery(inst.queries[q], |inst.costs|);
  }

  ghost function Pick(inst: Instance, chosen: seq<bool>, q: nat): (e: nat)
    requires Valid(inst) && |chosen| == |inst.costs| && q < |inst.queries| && HasPick(inst, chosen, q)
    ensures e < |Edges(inst)| && Edges(inst)[e].query == q
    ensures Edges(inst)[e].target < |chosen| && chosen[Edges(inst)[e].target]
  {
    QueryTargets(inst, q);
    var e: nat :| IsPick(inst, chosen, q, e);
    e
  }

  /** A query that gains something has a pick. */
  lemma GainHasPick(inst: Instance, chosen: seq<bool>, q: nat)
    requires Valid(inst) && |chosen| == |inst.costs| && q < |inst.queries|
    ensures ValidQuery(inst.queries[q], |inst.costs|)
    ensures inst.queries[q].weight * BestSaving(inst.queries[q].savings, chosen) > 0.0 ==> HasPick(inst, chosen, q)
  {
    hide QueryEdges, EdgesUpTo;
    QueryTargets(inst, q);
    assert ValidQuery(inst.queries[q], |inst.costs|);
    var query := inst.queries[q];
    if query.weight * BestSaving(query.savings, chosen) > 0.0 {
      var i := BestSavingIsTaken(query.savings, chosen);
      var e := EdgeExists(q, query.weight, query.savings, i);
      StartsInside(inst, q);
      InsideBlock(inst, q, Start(inst.queries, q) + e);
      assert IsPick(inst, chosen, q, Start(inst.queries, q) + e);
    }
  }

  ghost predicate Picked(inst: Instance, chosen: seq<bool>, e: nat)
    requires Valid(inst) && |chosen| == |inst.costs| && e < |Edges(inst)|
  {
    EdgesAreGood(inst, |inst.queries|);
    var q := Edges(inst)[e].query;
    HasPick(inst, chosen, q) && Pick(inst, chosen, q) == e
  }

  ghost predicate UsedUnit(inst: Instance, chosen: seq<bool>, u: nat)
    requires Valid(inst) && |chosen| == |inst.costs|
  {
    exists e: nat :: e < |Edges(inst)| && Edges(inst)[e].target == u && Picked(inst, chosen, e)
  }

  /** The picked edges, and the units they use. */
  ghost function PointOf(inst: Instance, chosen: seq<bool>): (x: seq<bool>)
    requires Valid(inst) && |chosen| == |inst.costs|
    ensures |x| == |inst.costs| + |Edges(inst)|
    ensures forall u: nat :: u < |inst.costs| ==> x[u] == UsedUnit(inst, chosen, u)
    ensures forall e: nat :: e < |Edges(inst)| ==> (Taken(|inst.costs|, x, e) <==> Picked(inst, chosen, e))
  {
    var units := seq(|inst.costs|, u requires 0 <= u < |inst.costs| => UsedUnit(inst, chosen, u));
    var edges := seq(|Edges(inst)|, e requires 0 <= e < |Edges(inst)| => Picked(inst, chosen, e));
    units + edges
  }

  lemma {:induction false} FewerCostLess(costs: seq<int>, used: seq<bool>, chosen: seq<bool>)
    requires |used| == |chosen| == |costs| && forall u :: 0 <= u < |costs| ==> costs[u] > 0
    requires forall u :: 0 <= u < |costs| && used[u] ==> chosen[u]
    ensures CostOf(costs, used) <= CostOf(costs, chosen)
  {
    if costs != [] {
      var last := |costs| - 1;
      FewerCostLess(costs[..last], used[..last], chosen[..last]);
    }
  }

  lemma UsedIsChosen(inst: Instance, chosen: seq<bool>, u: nat)
    requires Valid(inst) && |chosen| == |inst.costs| && u < |chosen|
    ensures UsedUnit(inst, chosen, u) ==> chosen[u]
  {
    hide Pick, HasPick, Edges;
    if e: nat :| e < |Edges(inst)| && Edges(inst)[e].target == u && Picked(inst, chosen, e) {
      PickIsChosen(inst, chosen, e);
    }
  }

  lemma PickIsChosen(inst: Instance, chosen: seq<bool>, e: nat)
    requires Valid(inst) && |chosen| == |inst.costs| && e < |Edges(inst)| && Picked(inst, chosen, e)
    ensures Edges(inst)[e].target < |chosen| && chosen[Edges(inst)[e].target]
  {
    EdgesAreGood(inst, |inst.queries|);
  }

  lemma PointIsFeasible(inst: Instance, chosen: seq<bool>)
    requires Valid(inst) && InBudget(inst, chosen)
    ensures GoodEdges(inst, Edges(inst)) && MeetsRows(inst, Edges(inst), PointOf(inst, chosen))
  {
    hide CostOf, Edges, Picked, UsedUnit, PointOf, AtMostOneEach, Admitted, NoIdleUnit;
    AllGood(inst);
    PointFitsBudget(inst, chosen);
    PointServesOnce(inst, chosen);
    PointAdmits(inst, chosen);
  }

  lemma AllGood(inst: Instance)
    requires Valid(inst)
    ensures GoodEdges(inst, Edges(inst))
  {
    EdgesAreGood(inst, |inst.queries|);
  }

  lemma PointFitsBudget(inst: Instance, chosen: seq<bool>)
    requires Valid(inst) && InBudget(inst, chosen)
    ensures CostOf(inst.costs, PointOf(inst, chosen)[..|inst.costs|]) <= inst.budget
  {
    hide CostOf, Edges, Picked, UsedUnit, PointOf;
    var units, x := |inst.costs|, PointOf(inst, chosen);
    forall u | 0 <= u < units && x[..units][u] ensures chosen[u] {
      UsedIsChosen(inst, chosen, u);
    }
    FewerCostLess(inst.costs, x[..units], chosen);
  }

  lemma PointServesOnce(inst: Instance, chosen: seq<bool>)
    requires Valid(inst) && |chosen| == |inst.costs|
    ensures AtMostOneEach(|inst.costs|, Edges(inst), PointOf(inst, chosen), |inst.queries|)
  {
    hide Edges, Picked, UsedUnit, PointOf;
    var units, edges, x := |inst.costs|, Edges(inst), PointOf(inst, chosen);
    forall d: nat, e: nat | d < e < |edges| && edges[d].query == edges[e].query < |inst.queries|
      ensures !(x[units + d] && x[units + e])
    {
      assert Taken(units, x, d) == x[units + d] && Taken(units, x, e) == x[units + e];
      OnePickEach(inst, chosen, d, e);
    }
  }

  /** Every picked edge's unit is used, and every used unit has a picked edge. */
  lemma PointAdmits(inst: Instance, chosen: seq<bool>)
    requires Valid(inst) && |chosen| == |inst.costs|
    ensures GoodEdges(inst, Edges(inst))
    ensures Admitted(|inst.costs|, Edges(inst), PointOf(inst, chosen), |Edges(inst)|)
    ensures NoIdleUnit(|inst.costs|, Edges(inst), PointOf(inst, chosen), |inst.costs|)
  {
    hide Edges, Picked, UsedUnit, PointOf;
    var units, edges, x := |inst.costs|, Edges(inst), PointOf(inst, chosen);
    AllGood(inst);
    forall e: nat | e < |edges| && x[units + e] ensures x[edges[e].target] {
      assert Taken(units, x, e);
      PickedIsUsed(inst, chosen, e);
    }
    forall u: nat | u < units && x[u] ensures UsedSomewhere(units, edges, x, u) {
      var e := UsedHasEdge(inst, chosen, u);
      assert Taken(units, x, e) && x[units + e];
    }
  }

  lemma OnePickEach(inst: Instance, chosen: seq<bool>, d: nat, e: nat)
    requires Valid(inst) && |chosen| == |inst.costs| && d < |Edges(inst)| && e < |Edges(inst)| && d != e
    requires Edges(inst)[d].query == Edges(inst)[e].query
    ensures !(Picked(inst, chosen, d) && Picked(inst, chosen, e))
  {
  }

  lemma PickedIsUsed(inst: Instance, chosen: seq<bool>, e: nat)
    requires Valid(inst) && |chosen| == |inst.costs| && e < |Edges(inst)| && Picked(inst, chosen, e)
    ensures UsedUnit(inst, chosen, Edges(inst)[e].target)
  {
  }

  lemma UsedHasEdge(inst: Instance, chosen: seq<bool>, u: nat) returns (e: nat)
    requires Valid(inst) && |chosen| == |inst.costs| && UsedUnit(inst, chosen, u)
    ensures e < |Edges(inst)| && Edges(inst)[e].target == u && Picked(inst, chosen, e)
  {
    e :| e < |Edges(inst)| && Edges(inst)[e].target == u && Picked(inst, chosen, e);
  }

  lemma PickFacts(inst: Instance, chosen: seq<bool>, q: nat) returns (c: nat)
    requires Valid(inst) && |chosen| == |inst.costs| && q < |inst.queries| && HasPick(inst, chosen, q)
    ensures Start(inst.queries, q) <= c < Start(inst.queries, q + 1) <= |Edges(inst)| && Picked(inst, chosen, c)
    ensures ValidQuery(inst.queries[q], |inst.costs|)
    ensures Edges(inst)[c].benefit == inst.queries[q].weight * BestSaving(inst.queries[q].savings, chosen)
    ensures forall e: nat :: Start(inst.queries, q) <= e < Start(inst.queries, q + 1) && e != c ==>
      !Picked(inst, chosen, e)
  {
    hide EdgesUpTo;
    StartsInside(inst, q);
    QueryTargets(inst, q);
    EdgesAreGood(inst, |inst.queries|);
    c := Pick(inst, chosen, q);
    assert IsPick(inst, chosen, q, c);
    BlockOfQuery(inst, q, c);
    forall e: nat | Start(inst.queries, q) <= e < Start(inst.queries, q + 1) && e != c
      ensures !Picked(inst, chosen, e)
    {
      InsideBlock(inst, q, e);
      OnePickEach(inst, chosen, e, c);
    }
  }

  /** A query without a pick gains nothing, and none of its edges is taken. */
  lemma NoPickFacts(inst: Instance, chosen: seq<bool>, q: nat)
    requires Valid(inst) && |chosen| == |inst.costs| && q < |inst.queries| && !HasPick(inst, chosen, q)
    ensures Start(inst.queries, q) <= Start(inst.queries, q + 1) <= |Edges(inst)|
    ensures ValidQuery(inst.queries[q], |inst.costs|)
    ensures inst.queries[q].weight * BestSaving(inst.queries[q].savings, chosen) == 0.0
    ensures forall e: nat :: Start(inst.queries, q) <= e < Start(inst.queries, q + 1) ==> !Picked(inst, chosen, e)
  {
    hide EdgesUpTo, Pick, BestSaving;
    StartsInside(inst, q);
    GainHasPick(inst, chosen, q);
    Scaled(inst.queries[q].weight, 0.0, BestSaving(inst.queries[q].savings, chosen));
    forall e: nat | Start(inst.queries, q) <= e < Start(inst.queries, q + 1) ensures !Picked(inst, chosen, e) {
      InsideBlock(inst, q, e);
    }
  }

  lemma {:induction false} PointIsWorth(inst: Instance, chosen: seq<bool>, k: nat)
    requires Valid(inst) && |chosen| == |inst.costs| && k <= |inst.queries|
    ensures Start(inst.queries, k) <= |Edges(inst)|
    ensures Value(|inst.costs|, Edges(inst), PointOf(inst, chosen), Start(inst.queries, k))
         == BestValue(inst.queries[..k], chosen)
  {
    hide EdgesUpTo, Edges, BestSaving, HasPick, Picked, Valid, PointOf, ValidQuery;
    if k == 0 {
      NoEdges(inst);
    } else {
      PointIsWorth(inst, chosen, k - 1);
      BlockIsWorth(inst, chosen, k - 1);
      ValidQueries(inst);
      NextBestValue(inst.queries, chosen, k - 1);
    }
  }

  lemma ValidQueries(inst: Instance)
    requires Valid(inst)
    ensures forall q :: 0 <= q < |inst.queries| ==> ValidQuery(inst.queries[q], |inst.costs|)
  {
  }

  lemma BlockIsWorth(inst: Instance, chosen: seq<bool>, q: nat)
    requires Valid(inst) && |chosen| == |inst.costs| && q < |inst.queries|
    ensures Start(inst.queries, q) <= Start(inst.queries, q + 1) <= |Edges(inst)|
    ensures ValidQuery(inst.queries[q], |inst.costs|)
    ensures Value(|inst.costs|, Edges(inst), PointOf(inst, chosen), Start(inst.queries, q + 1))
         == Value(|inst.costs|, Edges(inst), PointOf(inst, chosen), Start(inst.queries, q))
            + inst.queries[q].weight * BestSaving(inst.queries[q].savings, chosen)
  {
    hide EdgesUpTo, Edges, BestSaving, HasPick, Picked, UsedUnit, Valid, PointOf;
    var units, edges, x := |inst.costs|, Edges(inst), PointOf(inst, chosen);
    var lo, hi := Start(inst.queries, q), Start(inst.queries, q + 1);
    if HasPick(inst, chosen, q) {
      var c := PickFacts(inst, chosen, q);
      StretchValue(units, edges, x, lo, hi, c);
    } else {
      NoPickFacts(inst, chosen, q);
      StretchValue(units, edges, x, lo, hi, hi);
    }
  }

  // --- The optimum ---

  /** The rows keep the optimum: no feasible point is worth more than the best selection, and one is worth as much. */
  lemma RowsKeepTheOptimum(inst: Instance, best: real) returns (x: seq<bool>)
    requires Valid(inst) && IsOptimum(inst, best)
    ensures GoodEdges(inst, Edges(inst))
    ensures |x| == |inst.costs| + |Edges(inst)| && MeetsRows(inst, Edges(inst), x) &&
      Objective(inst, Edges(inst), x) == best
    ensures forall y: seq<bool> :: |y| == |inst.costs| + |Edges(inst)| && MeetsRows(inst, Edges(inst), y) ==>
      Objective(inst, Edges(inst), y) <= best
  {
    hide BestValue, CostOf, EdgesUpTo, Value;
    EdgesAreGood(inst, |inst.queries|);
    var all := inst.queries[..|inst.queries|];
    assert all == inst.queries;
    var chosen: seq<bool> :| InBudget(inst, chosen) && BestValue(inst.queries, chosen) == best;
    x := PointOf(inst, chosen);
    PointIsFeasible(inst, chosen);
    PointIsWorth(inst, chosen, |inst.queries|);
    forall y: seq<bool> | |y| == |inst.costs| + |Edges(inst)| && MeetsRows(inst, Edges(inst), y)
      ensures Objective(inst, Edges(inst), y) <= best
    {
      PointIsBounded(inst, y, |inst.queries|);
      assert InBudget(inst, y[..|inst.costs|]);
    }
  }

  ghost predicate Attains(inst: Instance, edges: seq<Edge>, entries: seq<Entry>, upper: seq<real>, x: seq<bool>,
                          value: real) {
    |x| == |inst.costs| + |edges| && Feasible(entries, upper, x) && Objective(inst, edges, x) == value
  }

  /** The encoded program's optimum is the exhaustive oracle's value. */
  method EncodedOptimum(inst: Instance) returns (edges: seq<Edge>, entries: seq<Entry>, upper: seq<real>, best: real)
    requires Valid(inst)
    ensures edges == Edges(inst) && IsOptimum(inst, best)
    ensures forall y: seq<bool> :: |y| == |inst.costs| + |edges| && Feasible(entries, upper, y) ==>
      Objective(inst, edges, y) <= best
    ensures exists x: seq<bool> :: Attains(inst, edges, entries, upper, x, best)
  {
    hide Feasible, MeetsRows, Objective, IsOptimum, Edges;
    var chosen: seq<bool>;
    best, chosen := BruteForce(inst);
    edges := BuildEdges(inst);
    ghost var x := RowsKeepTheOptimum(inst, best);
    entries, upper := Encode(inst, edges);
    assert Attains(inst, edges, entries, upper, x, best);
  }
}

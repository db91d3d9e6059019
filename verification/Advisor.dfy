// Choosing physical units under a byte budget: the instance, its best value,
// and the exhaustive oracle.

module Advisor {
  import opened Powers

  /** A unit that could serve a query, and what it would save. */
  datatype Saving = Saving(target: nat, amount: real)

  datatype Query = Query(weight: real, savings: seq<Saving>)

  datatype Instance = Instance(budget: int, costs: seq<int>, queries: seq<Query>)

  predicate ValidQuery(q: Query, units: nat) {
    && q.weight >= 0.0
    && (forall i :: 0 <= i < |q.savings| ==> q.savings[i].target < units && q.savings[i].amount >= 0.0)
    && (forall i, j :: 0 <= i < j < |q.savings| ==> q.savings[i].target != q.savings[j].target)
  }

  /** What validation lets through. */
  predicate Valid(inst: Instance) {
    && inst.budget >= 0
    && (forall u :: 0 <= u < |inst.costs| ==> inst.costs[u] > 0)
    && (forall q :: 0 <= q < |inst.queries| ==> ValidQuery(inst.queries[q], |inst.costs|))
  }

  // --- Value of a selection ---

  function CostOf(costs: seq<int>, chosen: seq<bool>): int
    requires |chosen| == |costs|
  {
    if costs == [] then 0
    else
      var last := |costs| - 1;
      CostOf(costs[..last], chosen[..last]) + (if chosen[last] then costs[last] else 0)
  }

  /** The largest saving among the chosen units, or zero. */
  function BestSaving(savings: seq<Saving>, chosen: seq<bool>): (best: real)
    requires forall i :: 0 <= i < |savings| ==> savings[i].target < |chosen|
    ensures best >= 0.0
  {
    if savings == [] then 0.0
    else
      var rest := BestSaving(savings[..|savings| - 1], chosen);
      var last := savings[|savings| - 1];
      if chosen[last.target] && last.amount > rest then last.amount else rest
  }

  /** Every query takes its best chosen unit. */
  function BestValue(queries: seq<Query>, chosen: seq<bool>): real
    requires forall q :: 0 <= q < |queries| ==> ValidQuery(queries[q], |chosen|)
  {
    if queries == [] then 0.0
    else
      var last := queries[|queries| - 1];
      assert ValidQuery(last, |chosen|);
      BestValue(queries[..|queries| - 1], chosen) + last.weight * BestSaving(last.savings, chosen)
  }

  ghost predicate InBudget(inst: Instance, chosen: seq<bool>) {
    |chosen| == |inst.costs| && CostOf(inst.costs, chosen) <= inst.budget
  }

  /** No selection within the budget is worth more, and one is worth this much. */
  ghost predicate IsOptimum(inst: Instance, best: real)
    requires Valid(inst)
  {
    && (forall chosen: seq<bool> :: InBudget(inst, chosen) ==> BestValue(inst.queries, chosen) <= best)
    && exists chosen: seq<bool> :: InBudget(inst, chosen) && BestValue(inst.queries, chosen) == best
  }

  lemma {:induction false} BestSavingBounds(savings: seq<Saving>, chosen: seq<bool>, i: nat)
    requires i < |savings| && forall k :: 0 <= k < |savings| ==> savings[k].target < |chosen|
    ensures chosen[savings[i].target] ==> savings[i].amount <= BestSaving(savings, chosen)
  {
    if i < |savings| - 1 {
      BestSavingBounds(savings[..|savings| - 1], chosen, i);
    }
  }

  lemma {:induction false} BestSavingIsTaken(savings: seq<Saving>, chosen: seq<bool>) returns (i: nat)
    requires forall k :: 0 <= k < |savings| ==> savings[k].target < |chosen|
    requires BestSaving(savings, chosen) > 0.0
    ensures i < |savings| && chosen[savings[i].target] && savings[i].amount == BestSaving(savings, chosen)
  {
    var last := savings[|savings| - 1];
    if chosen[last.target] && last.amount > BestSaving(savings[..|savings| - 1], chosen) {
      i := |savings| - 1;
    } else {
      i := BestSavingIsTaken(savings[..|savings| - 1], chosen);
    }
  }

  // --- The oracle: all masks ---

  function Bits(mask: nat, n: nat): (chosen: seq<bool>)
    ensures |chosen| == n
  {
    if n == 0 then [] else [mask % 2 == 1] + Bits(mask / 2, n - 1)
  }

  lemma {:induction false} EveryChoiceHasAMask(chosen: seq<bool>) returns (mask: nat)
    ensures mask < Pow2(|chosen|) && Bits(mask, |chosen|) == chosen
  {
    if chosen == [] {
      mask := 0;
    } else {
      var rest := EveryChoiceHasAMask(chosen[1..]);
      mask := 2 * rest + (if chosen[0] then 1 else 0);
      assert mask / 2 == rest && (mask % 2 == 1 <==> chosen[0]);
      assert Bits(mask, |chosen|) == [chosen[0]] + chosen[1..];
    }
  }

  lemma {:induction false} NothingCostsNothing(costs: seq<int>, n: nat)
    requires n == |costs|
    ensures CostOf(costs, Bits(0, n)) == 0
    ensures forall i :: 0 <= i < n ==> !Bits(0, n)[i]
  {
    NoBits(n);
    CostOfNone(costs, Bits(0, n));
  }

  lemma {:induction false} NoBits(n: nat)
    ensures forall i :: 0 <= i < n ==> !Bits(0, n)[i]
  {
    if n > 0 {
      NoBits(n - 1);
    }
  }

  lemma {:induction false} CostOfNone(costs: seq<int>, chosen: seq<bool>)
    requires |chosen| == |costs| && forall i :: 0 <= i < |chosen| ==> !chosen[i]
    ensures CostOf(costs, chosen) == 0
  {
    if costs != [] {
      var last := |costs| - 1;
      CostOfNone(costs[..last], chosen[..last]);
    }
  }

  /** One more chosen unit costs what that unit costs. */
  lemma {:induction false} CostOfOneMore(costs: seq<int>, chosen: seq<bool>, u: nat)
    requires |chosen| == |costs| && u < |costs| && !chosen[u]
    ensures CostOf(costs, chosen[u := true]) == CostOf(costs, chosen) + costs[u]
  {
    var last := |costs| - 1;
    if u == last {
      assert chosen[u := true][..last] == chosen[..last];
    } else {
      CostOfOneMore(costs[..last], chosen[..last], u);
      assert chosen[u := true][..last] == chosen[..last][u := true];
    }
  }

  lemma {:induction false} ValuesArePositive(queries: seq<Query>, chosen: seq<bool>)
    requires forall q :: 0 <= q < |queries| ==> ValidQuery(queries[q], |chosen|)
    ensures BestValue(queries, chosen) >= 0.0
  {
    if queries != [] {
      ValuesArePositive(queries[..|queries| - 1], chosen);
      assert ValidQuery(queries[|queries| - 1], |chosen|);
    }
  }

  method BruteForce(inst: Instance) returns (best: real, chosen: seq<bool>)
    requires Valid(inst)
    ensures IsOptimum(inst, best)
    ensures InBudget(inst, chosen) && BestValue(inst.queries, chosen) == best
  {
    var n := |inst.costs|;
    best, chosen := -1.0, [];
    NothingCostsNothing(inst.costs, n);
    for mask := 0 to Pow2(n)
      invariant mask == 0 ==> best < 0.0
      invariant mask > 0 ==> InBudget(inst, chosen) && BestValue(inst.queries, chosen) == best
      invariant forall m: nat :: m < mask && InBudget(inst, Bits(m, n)) ==> BestValue(inst.queries, Bits(m, n)) <= best
    {
      var selected := Bits(mask, n);
      if CostOf(inst.costs, selected) <= inst.budget {
        var value := BestValue(inst.queries, selected);
        ValuesArePositive(inst.queries, selected);
        if value > best {
          best, chosen := value, selected;
        }
      }
    }
    forall other: seq<bool> | InBudget(inst, other) ensures BestValue(inst.queries, other) <= best {
      var mask := EveryChoiceHasAMask(other);
    }
  }
}

// The integer program: edges, constraint rows as triplets, and what a point
// must satisfy to be feasible.

module AdvisorRows {
  import opened Advisor

  datatype Edge = Edge(query: nat, target: nat, benefit: real)

  datatype Entry = Entry(row: nat, col: nat, value: real)

  datatype Term = Term(col: nat, value: real)

  // --- Edges ---

  function EdgeFor(q: nat, weight: real, s: Saving): seq<Edge> {
    if weight * s.amount > 0.0 then [Edge(q, s.target, weight * s.amount)] else []
  }

  /** The edges of one query: its savings of positive benefit, in order. */
  function QueryEdges(q: nat, weight: real, savings: seq<Saving>): seq<Edge> {
    if savings == [] then []
    else QueryEdges(q, weight, savings[..|savings| - 1]) + EdgeFor(q, weight, savings[|savings| - 1])
  }

  lemma NextQueryEdges(q: nat, weight: real, savings: seq<Saving>, j: nat)
    requires j < |savings|
    ensures QueryEdges(q, weight, savings[..j + 1])
         == QueryEdges(q, weight, savings[..j]) + EdgeFor(q, weight, savings[j])
  {
    var part := savings[..j + 1];
    assert part[..|part| - 1] == savings[..j] && part[|part| - 1] == savings[j];
  }

  /** The edges of the first k queries. */
  function EdgesUpTo(queries: seq<Query>, k: nat): seq<Edge>
    requires k <= |queries|
  {
    if k == 0 then []
    else EdgesUpTo(queries, k - 1) + QueryEdges(k - 1, queries[k - 1].weight, queries[k - 1].savings)
  }

  function Edges(inst: Instance): seq<Edge> {
    EdgesUpTo(inst.queries, |inst.queries|)
  }

  /** Place j of query q's savings has a positive benefit. */
  predicate Pays(inst: Instance, q: nat, j: nat) {
    q < |inst.queries| && j < |inst.queries[q].savings|
    && inst.queries[q].weight * inst.queries[q].savings[j].amount > 0.0
  }

  lemma EdgeForMeans(q: nat, weight: real, s: Saving)
    ensures |EdgeFor(q, weight, s)| <= 1
    ensures EdgeFor(q, weight, s) != [] <==> weight * s.amount > 0.0
    ensures forall e :: e in EdgeFor(q, weight, s) ==> e == Edge(q, s.target, weight * s.amount)
  {
  }

  /** Which of the first n savings each of these edges is for. */
  ghost predicate InQuery(q: nat, weight: real, savings: seq<Saving>, n: nat, edges: seq<Edge>, places: seq<nat>) {
    && n <= |savings| && |places| == |edges|
    && (forall i :: 0 <= i < |places| ==>
         places[i] < n && EdgeFor(q, weight, savings[places[i]]) == [edges[i]])
    && (forall i, k :: 0 <= i < k < |places| ==> places[i] < places[k])
    && (forall j: nat :: j < n && EdgeFor(q, weight, savings[j]) != [] ==> j in places)
  }

  lemma NextPlace(q: nat, weight: real, savings: seq<Saving>, n: nat, edges: seq<Edge>, before: seq<nat>)
    returns (places: seq<nat>)
    requires n < |savings| && InQuery(q, weight, savings, n, edges, before)
    ensures InQuery(q, weight, savings, n + 1, edges + EdgeFor(q, weight, savings[n]), places)
  {
    hide EdgeFor;
    var added := EdgeFor(q, weight, savings[n]);
    EdgeForMeans(q, weight, savings[n]);
    if added == [] {
      places := before;
      assert edges + added == edges;
    } else {
      places := before + [n];
      assert added == [added[0]];
      assert forall j :: j in places <==> j in before || j == n;
    }
  }

  lemma {:induction false} QueryPlaces(q: nat, weight: real, savings: seq<Saving>, n: nat) returns (places: seq<nat>)
    requires n <= |savings|
    ensures InQuery(q, weight, savings, n, QueryEdges(q, weight, savings[..n]), places)
  {
    if n == 0 {
      places := [];
    } else {
      hide InQuery;
      var before := QueryPlaces(q, weight, savings, n - 1);
      NextQueryEdges(q, weight, savings, n - 1);
      places := NextPlace(q, weight, savings, n - 1, QueryEdges(q, weight, savings[..n - 1]), before);
    }
  }

  /** Which saving each edge of the first k queries is for. */
  ghost predicate PlacesOf(inst: Instance, k: nat, edges: seq<Edge>, places: seq<nat>) {
    && k <= |inst.queries| && |places| == |edges|
    && (forall i :: 0 <= i < |edges| ==> ForSaving(inst, k, edges[i], places[i]))
    && (forall i, m :: 0 <= i < m < |edges| ==>
         edges[i].query < edges[m].query || (edges[i].query == edges[m].query && places[i] < places[m]))
    && (forall q: nat, j: nat :: q < k && Pays(inst, q, j) ==> HasEdge(edges, places, q, j))
  }

  ghost predicate ForSaving(inst: Instance, k: nat, e: Edge, j: nat) {
    && e.query < k && Pays(inst, e.query, j) && e.target == inst.queries[e.query].savings[j].target
    && e.benefit == inst.queries[e.query].weight * inst.queries[e.query].savings[j].amount
  }

  ghost predicate HasEdge(edges: seq<Edge>, places: seq<nat>, q: nat, j: nat) {
    exists i :: 0 <= i < |edges| && i < |places| && edges[i].query == q && places[i] == j
  }

  lemma OwnPlaces(inst: Instance, q: nat) returns (own: seq<nat>)
    requires q < |inst.queries|
    ensures var edges := QueryEdges(q, inst.queries[q].weight, inst.queries[q].savings);
      && |own| == |edges|
      && (forall i :: 0 <= i < |edges| ==> edges[i].query == q && ForSaving(inst, q + 1, edges[i], own[i]))
      && (forall i, m :: 0 <= i < m < |edges| ==> own[i] < own[m])
      && (forall j: nat :: Pays(inst, q, j) ==> HasEdge(edges, own, q, j))
  {
    hide EdgeFor, QueryEdges;
    var query := inst.queries[q];
    var edges := QueryEdges(q, query.weight, query.savings);
    own := QueryPlaces(q, query.weight, query.savings, |query.savings|);
    assert query.savings[..|query.savings|] == query.savings;
    forall i | 0 <= i < |edges| ensures edges[i].query == q && ForSaving(inst, q + 1, edges[i], own[i]) {
      EdgeForMeans(q, query.weight, query.savings[own[i]]);
      assert edges[i] in EdgeFor(q, query.weight, query.savings[own[i]]);
    }
    forall j: nat | Pays(inst, q, j) ensures HasEdge(edges, own, q, j) {
      EdgeForMeans(q, query.weight, query.savings[j]);
      var i :| 0 <= i < |own| && own[i] == j;
      assert edges[i].query == q;
    }
  }

  lemma MorePlaces(inst: Instance, k: nat, earlier: seq<Edge>, before: seq<nat>, added: seq<Edge>, own: seq<nat>)
    requires k < |inst.queries| && PlacesOf(inst, k, earlier, before) && |own| == |added|
    requires forall i :: 0 <= i < |added| ==> added[i].query == k && ForSaving(inst, k + 1, added[i], own[i])
    requires forall i, m :: 0 <= i < m < |added| ==> own[i] < own[m]
    requires forall j: nat :: Pays(inst, k, j) ==> HasEdge(added, own, k, j)
    ensures PlacesOf(inst, k + 1, earlier + added, before + own)
  {
    hide Pays, HasEdge;
    var edges, places := earlier + added, before + own;
    forall i | 0 <= i < |edges| ensures ForSaving(inst, k + 1, edges[i], places[i]) {
      assert i < |earlier| ==> ForSaving(inst, k, earlier[i], before[i]);
    }
    forall q: nat, j: nat | q < k + 1 && Pays(inst, q, j) ensures HasEdge(edges, places, q, j) {
      StillHasEdge(earlier, before, added, own, q, j);
    }
  }

  lemma StillHasEdge(earlier: seq<Edge>, before: seq<nat>, added: seq<Edge>, own: seq<nat>, q: nat, j: nat)
    requires |before| == |earlier| && |own| == |added|
    requires HasEdge(earlier, before, q, j) || HasEdge(added, own, q, j)
    ensures HasEdge(earlier + added, before + own, q, j)
  {
    var edges, places := earlier + added, before + own;
    if HasEdge(earlier, before, q, j) {
      var i :| 0 <= i < |earlier| && i < |before| && earlier[i].query == q && before[i] == j;
      assert edges[i].query == q && places[i] == j;
    } else {
      var i :| 0 <= i < |added| && i < |own| && added[i].query == q && own[i] == j;
      assert edges[|earlier| + i].query == q && places[|before| + i] == j;
    }
  }

  lemma {:induction false} PlacesUpTo(inst: Instance, k: nat) returns (places: seq<nat>)
    requires k <= |inst.queries|
    ensures PlacesOf(inst, k, EdgesUpTo(inst.queries, k), places)
  {
    if k == 0 {
      places := [];
    } else {
      hide Pays, QueryEdges, PlacesOf, HasEdge, ForSaving;
      var query := inst.queries[k - 1];
      var before := PlacesUpTo(inst, k - 1);
      var own := OwnPlaces(inst, k - 1);
      var added := QueryEdges(k - 1, query.weight, query.savings);
      MorePlaces(inst, k - 1, EdgesUpTo(inst.queries, k - 1), before, added, own);
      places := before + own;
    }
  }

  /** The edge list: `places` says which saving of its query each edge is for. The
      edges are the positive benefits, each once, by query and then by saving. */
  lemma EdgesMean(inst: Instance, edges: seq<Edge>) returns (places: seq<nat>)
    requires edges == Edges(inst)
    ensures |places| == |edges|
    ensures forall i :: 0 <= i < |edges| ==>
      var q, j := edges[i].query, places[i];
      && Pays(inst, q, j) && edges[i].target == inst.queries[q].savings[j].target
      && edges[i].benefit == inst.queries[q].weight * inst.queries[q].savings[j].amount
    ensures forall i, k :: 0 <= i < k < |edges| ==>
      edges[i].query < edges[k].query || (edges[i].query == edges[k].query && places[i] < places[k])
    ensures forall q: nat, j: nat :: Pays(inst, q, j) ==>
      exists i :: 0 <= i < |edges| && edges[i].query == q && places[i] == j
  {
    hide Pays, EdgesUpTo;
    places := PlacesUpTo(inst, |inst.queries|);
    forall q: nat, j: nat | Pays(inst, q, j)
      ensures exists i :: 0 <= i < |edges| && edges[i].query == q && places[i] == j
    {
      PaysInside(inst, q, j);
      assert HasEdge(edges, places, q, j);
    }
    assert forall i :: 0 <= i < |edges| ==> ForSaving(inst, |inst.queries|, edges[i], places[i]);
  }

  lemma PaysInside(inst: Instance, q: nat, j: nat)
    requires Pays(inst, q, j)
    ensures q < |inst.queries|
  {
  }

  method BuildEdges(inst: Instance) returns (edges: seq<Edge>)
    ensures edges == Edges(inst)
  {
    edges := [];
    for q := 0 to |inst.queries|
      invariant edges == EdgesUpTo(inst.queries, q)
    {
      var query := inst.queries[q];
      for j := 0 to |query.savings|
        invariant edges == EdgesUpTo(inst.queries, q) + QueryEdges(q, query.weight, query.savings[..j])
      {
        var benefit := query.weight * query.savings[j].amount;
        NextQueryEdges(q, query.weight, query.savings, j);
        ghost var base, done := EdgesUpTo(inst.queries, q), QueryEdges(q, query.weight, query.savings[..j]);
        assert base + (done + EdgeFor(q, query.weight, query.savings[j]))
            == edges + EdgeFor(q, query.weight, query.savings[j]);
        if benefit > 0.0 {
          edges := edges + [Edge(q, query.savings[j].target, benefit)];
        }
      }
      assert query.savings[..|query.savings|] == query.savings;
    }
  }

  /** Positions of the edges below k that satisfy f, ascending. */
  function Where(edges: seq<Edge>, f: Edge -> bool, k: nat): seq<nat>
    requires k <= |edges|
  {
    if k == 0 then [] else Where(edges, f, k - 1) + (if f(edges[k - 1]) then [k - 1] else [])
  }

  lemma {:induction false} WhereHolds(edges: seq<Edge>, f: Edge -> bool, k: nat)
    requires k <= |edges|
    ensures forall e: nat :: e in Where(edges, f, k) <==> e < k && f(edges[e])
    ensures forall i, j :: 0 <= i < j < |Where(edges, f, k)| ==> Where(edges, f, k)[i] < Where(edges, f, k)[j]
  {
    if k > 0 {
      WhereHolds(edges, f, k - 1);
      var rest := Where(edges, f, k - 1);
      assert forall i :: 0 <= i < |rest| ==> rest[i] in rest;
    }
  }

  function OfQuery(edges: seq<Edge>, q: nat): seq<nat> {
    Where(edges, (e: Edge) => e.query == q, |edges|)
  }

  function OfUnit(edges: seq<Edge>, u: nat): seq<nat> {
    Where(edges, (e: Edge) => e.target == u, |edges|)
  }

  // --- Rows and points ---

  function At(x: seq<bool>, i: nat): real {
    if i < |x| && x[i] then 1.0 else 0.0
  }

  /** A linear form at a point. */
  function Dot(terms: seq<Term>, x: seq<bool>): real {
    if terms == [] then 0.0
    else Dot(terms[..|terms| - 1], x) + terms[|terms| - 1].value * At(x, terms[|terms| - 1].col)
  }

  /** The form that the triplets of one row spell. */
  function RowSum(entries: seq<Entry>, row: nat, x: seq<bool>): real {
    if entries == [] then 0.0
    else
      var last := entries[|entries| - 1];
      RowSum(entries[..|entries| - 1], row, x) + (if last.row == row then last.value * At(x, last.col) else 0.0)
  }

  /** Every row stays at or below its upper bound. */
  ghost predicate Feasible(entries: seq<Entry>, upper: seq<real>, x: seq<bool>) {
    forall r: nat :: r < |upper| ==> RowSum(entries, r, x) <= upper[r]
  }

  ghost predicate RowsBelow(entries: seq<Entry>, rows: nat) {
    forall i :: 0 <= i < |entries| ==> entries[i].row < rows
  }

  lemma {:induction false} NoSuchRow(entries: seq<Entry>, row: nat, x: seq<bool>)
    requires RowsBelow(entries, row)
    ensures RowSum(entries, row, x) == 0.0
  {
    if entries != [] {
      assert entries[|entries| - 1].row < row;
      NoSuchRow(entries[..|entries| - 1], row, x);
    }
  }

  /** Writes one row: the other rows stay, and the feasible points are cut by the new form. */
  method AppendRow(entries: seq<Entry>, upper: seq<real>, terms: seq<Term>, bound: real)
    returns (entries': seq<Entry>, upper': seq<real>)
    requires RowsBelow(entries, |upper|)
    ensures RowsBelow(entries', |upper'|)
    ensures forall x: seq<bool> :: Feasible(entries', upper', x) <==>
      Feasible(entries, upper, x) && Dot(terms, x) <= bound
  {
    var row := |upper|;
    entries' := entries;
    for t := 0 to |terms|
      invariant RowsBelow(entries', row + 1)
      invariant forall x: seq<bool> :: RowSum(entries', row, x) == RowSum(entries, row, x) + Dot(terms[..t], x)
      invariant forall x: seq<bool>, r: nat :: r < row ==> RowSum(entries', r, x) == RowSum(entries, r, x)
    {
      assert terms[..t + 1][..t] == terms[..t];
      var more := entries' + [Entry(row, terms[t].col, terms[t].value)];
      assert more[..|more| - 1] == entries';
      entries' := more;
    }
    assert terms[..|terms|] == terms;
    upper' := upper + [bound];
    forall x: seq<bool>
      ensures Feasible(entries', upper', x) <==> Feasible(entries, upper, x) && Dot(terms, x) <= bound
    {
      NoSuchRow(entries, row, x);
      assert RowSum(entries', row, x) == Dot(terms, x);
      if Feasible(entries', upper', x) {
        forall r: nat | r < |upper| ensures RowSum(entries, r, x) <= upper[r] {
          assert RowSum(entries', r, x) <= upper'[r];
        }
        assert RowSum(entries', row, x) <= upper'[row];
      }
    }
  }

  // --- The four kinds of row ---

  function BudgetRow(costs: seq<int>): (terms: seq<Term>)
    ensures |terms| == |costs|
  {
    seq(|costs|, u requires 0 <= u < |costs| => Term(u, costs[u] as real))
  }

  /** Coefficient c on the variable of every listed edge. */
  function OnEdges(units: nat, list: seq<nat>, c: real): (terms: seq<Term>)
    ensures |terms| == |list|
  {
    seq(|list|, i requires 0 <= i < |list| => Term(units + list[i], c))
  }

  function AdmissionRow(units: nat, edges: seq<Edge>, e: nat): seq<Term>
    requires e < |edges|
  {
    [Term(units + e, 1.0), Term(edges[e].target, -1.0)]
  }

  function UseRow(units: nat, edges: seq<Edge>, u: nat): seq<Term> {
    [Term(u, 1.0)] + OnEdges(units, OfUnit(edges, u), -1.0)
  }

  /** What the rows mean for a point: units first, then one variable per edge. */
  ghost predicate AtMostOneEach(units: nat, edges: seq<Edge>, x: seq<bool>, queries: nat)
    requires |x| == units + |edges|
  {
    forall d: nat, e: nat :: d < e < |edges| && edges[d].query == edges[e].query < queries ==>
      !(x[units + d] && x[units + e])
  }

  ghost predicate Admitted(units: nat, edges: seq<Edge>, x: seq<bool>, k: nat)
    requires |x| == units + |edges| && k <= |edges| && forall e :: 0 <= e < |edges| ==> edges[e].target < units
  {
    forall e: nat :: e < k && x[units + e] ==> x[edges[e].target]
  }

  ghost predicate UsedSomewhere(units: nat, edges: seq<Edge>, x: seq<bool>, u: nat)
    requires |x| == units + |edges|
  {
    exists e: nat :: e < |edges| && edges[e].target == u && x[units + e]
  }

  ghost predicate NoIdleUnit(units: nat, edges: seq<Edge>, x: seq<bool>, k: nat)
    requires |x| == units + |edges| && k <= units
  {
    forall u: nat :: u < k && x[u] ==> UsedSomewhere(units, edges, x, u)
  }

  ghost predicate GoodEdges(inst: Instance, edges: seq<Edge>) {
    forall e :: 0 <= e < |edges| ==> edges[e].target < |inst.costs| && edges[e].query < |inst.queries|
  }

  ghost predicate MeetsRows(inst: Instance, edges: seq<Edge>, x: seq<bool>)
    requires GoodEdges(inst, edges) && |x| == |inst.costs| + |edges|
  {
    var units := |inst.costs|;
    && CostOf(inst.costs, x[..units]) <= inst.budget
    && AtMostOneEach(units, edges, x, |inst.queries|)
    && Admitted(units, edges, x, |edges|)
    && NoIdleUnit(units, edges, x, units)
  }

  /** The rows in words: within the budget, at most one edge of a query, no edge to
      a unit that is not admitted, no admitted unit without an edge. */
  lemma RowsMean(inst: Instance, edges: seq<Edge>, x: seq<bool>)
    requires GoodEdges(inst, edges) && |x| == |inst.costs| + |edges|
    ensures var units := |inst.costs|;
      MeetsRows(inst, edges, x) <==>
        && CostOf(inst.costs, x[..units]) <= inst.budget
        && (forall d: nat, e: nat :: d < e < |edges| && edges[d].query == edges[e].query ==>
             !(x[units + d] && x[units + e]))
        && (forall e: nat :: e < |edges| && x[units + e] ==> x[edges[e].target])
        && (forall u: nat :: u < units && x[u] ==> exists e: nat :: e < |edges| && edges[e].target == u && x[units + e])
  {
    hide CostOf;
    var units := |inst.costs|;
    assert forall u: nat :: UsedSomewhere(units, edges, x, u) <==>
      exists e: nat :: e < |edges| && edges[e].target == u && x[units + e];
  }

  // --- Each row says its part ---

  lemma {:induction false} BudgetDot(costs: seq<int>, x: seq<bool>)
    requires |costs| <= |x|
    ensures Dot(BudgetRow(costs), x) == CostOf(costs, x[..|costs|]) as real
  {
    if costs != [] {
      var last := |costs| - 1;
      BudgetDot(costs[..last], x);
      assert BudgetRow(costs)[..last] == BudgetRow(costs[..last]);
      assert x[..|costs|][..last] == x[..last];
    }
  }

  function CountOn(units: nat, list: seq<nat>, x: seq<bool>): nat {
    if list == [] then 0
    else CountOn(units, list[..|list| - 1], x) + (if At(x, units + list[|list| - 1]) == 1.0 then 1 else 0)
  }

  lemma {:induction false} EdgesDot(units: nat, list: seq<nat>, c: real, x: seq<bool>)
    ensures Dot(OnEdges(units, list, c), x) == c * CountOn(units, list, x) as real
  {
    if list != [] {
      EdgesDot(units, list[..|list| - 1], c, x);
      assert OnEdges(units, list, c)[..|list| - 1] == OnEdges(units, list[..|list| - 1], c);
    }
  }

  /** A count of at most one means no two of the listed edges are taken. */
  lemma {:induction false} AtMostOneOn(units: nat, list: seq<nat>, x: seq<bool>)
    requires forall i :: 0 <= i < |list| ==> units + list[i] < |x|
    ensures CountOn(units, list, x) == 0 <==> forall i :: 0 <= i < |list| ==> !x[units + list[i]]
    ensures CountOn(units, list, x) <= 1 <==>
      forall i, j :: 0 <= i < j < |list| ==> !(x[units + list[i]] && x[units + list[j]])
  {
    if list != [] {
      var last := |list| - 1;
      AtMostOneOn(units, list[..last], x);
      assert forall i :: 0 <= i < last ==> list[..last][i] == list[i];
      if x[units + list[last]] {
        assert CountOn(units, list, x) <= 1 <==> CountOn(units, list[..last], x) == 0;
      }
    }
  }

  ghost predicate OneOfQuery(units: nat, edges: seq<Edge>, x: seq<bool>, q: nat)
    requires |x| == units + |edges|
  {
    forall d: nat, e: nat :: d < e < |edges| && edges[d].query == edges[e].query == q ==>
      !(x[units + d] && x[units + e])
  }

  lemma QueryRowMeans(units: nat, edges: seq<Edge>, x: seq<bool>, q: nat)
    requires |x| == units + |edges|
    ensures Dot(OnEdges(units, OfQuery(edges, q), 1.0), x) <= 1.0 <==> OneOfQuery(units, edges, x, q)
  {
    hide OnEdges, Dot, OfQuery, OneOfQuery, CountOn;
    var list := OfQuery(edges, q);
    ListOfQuery(edges, q);
    EdgesDot(units, list, 1.0, x);
    AtMostOneOn(units, list, x);
    NoTwoInList(units, edges, x, q, list);
  }

  ghost predicate Lists(edges: seq<Edge>, q: nat, list: seq<nat>) {
    && (forall i :: 0 <= i < |list| ==> list[i] < |edges| && edges[list[i]].query == q)
    && (forall i, j :: 0 <= i < j < |list| ==> list[i] < list[j])
    && (forall e: nat :: e < |edges| && edges[e].query == q ==> e in list)
  }

  lemma ListOfQuery(edges: seq<Edge>, q: nat)
    ensures Lists(edges, q, OfQuery(edges, q))
  {
    var list := OfQuery(edges, q);
    WhereHolds(edges, (e: Edge) => e.query == q, |edges|);
    assert forall i :: 0 <= i < |list| ==> list[i] in list;
  }

  lemma NoTwoInList(units: nat, edges: seq<Edge>, x: seq<bool>, q: nat, list: seq<nat>)
    requires |x| == units + |edges| && Lists(edges, q, list)
    ensures (forall i, j :: 0 <= i < j < |list| ==> !(x[units + list[i]] && x[units + list[j]]))
      <==> OneOfQuery(units, edges, x, q)
  {
    if forall i, j :: 0 <= i < j < |list| ==> !(x[units + list[i]] && x[units + list[j]]) {
      forall d: nat, e: nat | d < e < |edges| && edges[d].query == edges[e].query == q
        ensures !(x[units + d] && x[units + e])
      {
        var i :| 0 <= i < |list| && list[i] == d;
        var j :| 0 <= j < |list| && list[j] == e;
        assert i < j;
      }
    }
  }

  lemma AdmissionRowMeans(units: nat, edges: seq<Edge>, x: seq<bool>, e: nat)
    requires |x| == units + |edges| && e < |edges| && edges[e].target < units
    ensures Dot(AdmissionRow(units, edges, e), x) <= 0.0 <==> (x[units + e] ==> x[edges[e].target])
  {
    var row := AdmissionRow(units, edges, e);
    assert row[..1] == [row[0]] && row[..1][..0] == [];
    assert Dot(row[..1], x) == At(x, units + e);
    assert Dot(row, x) == At(x, units + e) - At(x, edges[e].target);
  }

  lemma {:induction false} DotAppends(a: seq<Term>, b: seq<Term>, x: seq<bool>)
    ensures Dot(a + b, x) == Dot(a, x) + Dot(b, x)
  {
    if b == [] {
      assert a + b == a;
    } else {
      DotAppends(a, b[..|b| - 1], x);
      assert (a + b)[..|a + b| - 1] == a + b[..|b| - 1];
    }
  }

  lemma DotOfOne(t: Term, x: seq<bool>)
    ensures Dot([t], x) == t.value * At(x, t.col)
  {
    assert [t][..0] == [];
  }

  lemma UseRowMeans(units: nat, edges: seq<Edge>, x: seq<bool>, u: nat)
    requires |x| == units + |edges| && u < units
    ensures Dot(UseRow(units, edges, u), x) <= 0.0 <==> (x[u] ==> UsedSomewhere(units, edges, x, u))
  {
    hide OnEdges, Dot, CountOn;
    var list, first := OfUnit(edges, u), [Term(u, 1.0)];
    WhereHolds(edges, (e: Edge) => e.target == u, |edges|);
    assert forall i :: 0 <= i < |list| ==> list[i] in list;
    DotOfOne(Term(u, 1.0), x);
    DotAppends(first, OnEdges(units, list, -1.0), x);
    EdgesDot(units, list, -1.0, x);
    AtMostOneOn(units, list, x);
    if e: nat :| e < |edges| && edges[e].target == u && x[units + e] {
      assert e in list;
    }
  }

  // --- Writing all rows ---

  lemma {:induction false} QueryEdgesAreGood(q: nat, weight: real, savings: seq<Saving>, units: nat)
    requires forall i :: 0 <= i < |savings| ==> savings[i].target < units
    ensures forall e :: 0 <= e < |QueryEdges(q, weight, savings)| ==>
      QueryEdges(q, weight, savings)[e].target < units && QueryEdges(q, weight, savings)[e].query == q
  {
    if savings != [] {
      QueryEdgesAreGood(q, weight, savings[..|savings| - 1], units);
    }
  }

  lemma {:induction false} EdgesAreGood(inst: Instance, k: nat)
    requires Valid(inst) && k <= |inst.queries|
    ensures forall e :: 0 <= e < |EdgesUpTo(inst.queries, k)| ==>
      EdgesUpTo(inst.queries, k)[e].target < |inst.costs| && EdgesUpTo(inst.queries, k)[e].query < k
  {
    if k > 0 {
      EdgesAreGood(inst, k - 1);
      var query := inst.queries[k - 1];
      assert ValidQuery(query, |inst.costs|);
      QueryEdgesAreGood(k - 1, query.weight, query.savings, |inst.costs|);
    }
  }

  ghost predicate Says(inst: Instance, edges: seq<Edge>, entries: seq<Entry>, upper: seq<real>,
                       queries: nat, admitted: nat, used: nat)
    requires GoodEdges(inst, edges) && admitted <= |edges| && used <= |inst.costs|
  {
    && RowsBelow(entries, |upper|)
    && forall x: seq<bool> :: |x| == |inst.costs| + |edges| ==>
      (Feasible(entries, upper, x) <==> Partly(inst, edges, x, queries, admitted, used))
  }

  /** The rows written so far: some queries, some admissions, some units. */
  ghost predicate Partly(inst: Instance, edges: seq<Edge>, x: seq<bool>, queries: nat, admitted: nat, used: nat)
    requires GoodEdges(inst, edges) && |x| == |inst.costs| + |edges| && admitted <= |edges| && used <= |inst.costs|
  {
    var units := |inst.costs|;
    && CostOf(inst.costs, x[..units]) <= inst.budget
    && AtMostOneEach(units, edges, x, queries)
    && Admitted(units, edges, x, admitted)
    && NoIdleUnit(units, edges, x, used)
  }

  lemma OneMoreQuery(units: nat, edges: seq<Edge>, x: seq<bool>, q: nat)
    requires |x| == units + |edges|
    ensures AtMostOneEach(units, edges, x, q + 1) <==>
      AtMostOneEach(units, edges, x, q) && OneOfQuery(units, edges, x, q)
  {
  }

  /** The rows are met by exactly the points that stay in the budget, serve each query once, and use what they admit. */
  method Encode(inst: Instance, edges: seq<Edge>) returns (entries: seq<Entry>, upper: seq<real>)
    requires Valid(inst) && GoodEdges(inst, edges)
    ensures forall x: seq<bool> :: |x| == |inst.costs| + |edges| ==>
      (Feasible(entries, upper, x) <==> MeetsRows(inst, edges, x))
  {
    hide Feasible, RowsBelow, CostOf, Dot, AtMostOneEach, Admitted, NoIdleUnit, OneOfQuery, UsedSomewhere, UseRow,
      AdmissionRow;
    var units := |inst.costs|;
    entries, upper := [], [];
    NoRows();
    entries, upper := AppendRow(entries, upper, BudgetRow(inst.costs), inst.budget as real);
    forall x: seq<bool> | |x| == units + |edges|
      ensures Feasible(entries, upper, x) <==> Partly(inst, edges, x, 0, 0, 0)
    {
      BudgetDot(inst.costs, x);
      NothingYet(units, edges, x);
    }
    for q := 0 to |inst.queries|
      invariant Says(inst, edges, entries, upper, q, 0, 0)
    {
      var list := OfQuery(edges, q);
      if list == [] {
        SkipQuery(inst, edges, entries, upper, q);
      } else {
        entries, upper := AppendRow(entries, upper, OnEdges(units, list, 1.0), 1.0);
        forall x: seq<bool> | |x| == units + |edges|
          ensures Feasible(entries, upper, x) <==> Partly(inst, edges, x, q + 1, 0, 0)
        {
          QueryRowMeans(units, edges, x, q);
          OneMoreQuery(units, edges, x, q);
        }
      }
    }
    for e := 0 to |edges|
      invariant Says(inst, edges, entries, upper, |inst.queries|, e, 0)
    {
      entries, upper := AppendRow(entries, upper, AdmissionRow(units, edges, e), 0.0);
      forall x: seq<bool> | |x| == units + |edges|
        ensures Feasible(entries, upper, x) <==> Partly(inst, edges, x, |inst.queries|, e + 1, 0)
      {
        AdmissionRowMeans(units, edges, x, e);
        OneMoreAdmission(units, edges, x, e);
      }
    }
    for u := 0 to units
      invariant Says(inst, edges, entries, upper, |inst.queries|, |edges|, u)
    {
      entries, upper := AppendRow(entries, upper, UseRow(units, edges, u), 0.0);
      forall x: seq<bool> | |x| == units + |edges|
        ensures Feasible(entries, upper, x) <==> Partly(inst, edges, x, |inst.queries|, |edges|, u + 1)
      {
        UseRowMeans(units, edges, x, u);
        OneMoreUnit(units, edges, x, u);
      }
    }
  }

  lemma NoRows()
    ensures RowsBelow([], 0) && forall x: seq<bool> :: Feasible([], [], x)
  {
  }

  lemma NothingYet(units: nat, edges: seq<Edge>, x: seq<bool>)
    requires |x| == units + |edges| && forall e :: 0 <= e < |edges| ==> edges[e].target < units
    ensures AtMostOneEach(units, edges, x, 0) && Admitted(units, edges, x, 0) && NoIdleUnit(units, edges, x, 0)
  {
  }

  /** A query without edges needs no row. */
  lemma SkipQuery(inst: Instance, edges: seq<Edge>, entries: seq<Entry>, upper: seq<real>, q: nat)
    requires GoodEdges(inst, edges) && Says(inst, edges, entries, upper, q, 0, 0) && OfQuery(edges, q) == []
    ensures Says(inst, edges, entries, upper, q + 1, 0, 0)
  {
    WhereHolds(edges, (e: Edge) => e.query == q, |edges|);
    forall e: nat | e < |edges| ensures edges[e].query != q {
      assert e !in OfQuery(edges, q);
    }
    forall x: seq<bool> | |x| == |inst.costs| + |edges|
      ensures Feasible(entries, upper, x) <==> Partly(inst, edges, x, q + 1, 0, 0)
    {
      assert Feasible(entries, upper, x) <==> Partly(inst, edges, x, q, 0, 0);
      OneMoreQuery(|inst.costs|, edges, x, q);
    }
  }

  lemma OneMoreAdmission(units: nat, edges: seq<Edge>, x: seq<bool>, k: nat)
    requires |x| == units + |edges| && k < |edges| && forall e :: 0 <= e < |edges| ==> edges[e].target < units
    ensures Admitted(units, edges, x, k + 1) <==> Admitted(units, edges, x, k) && (x[units + k] ==> x[edges[k].target])
  {
  }

  lemma OneMoreUnit(units: nat, edges: seq<Edge>, x: seq<bool>, k: nat)
    requires |x| == units + |edges| && k < units
    ensures NoIdleUnit(units, edges, x, k + 1) <==>
      NoIdleUnit(units, edges, x, k) && (x[k] ==> UsedSomewhere(units, edges, x, k))
  {
  }
}

// The two-phase graph pass: batches of vertices get new out-lists, and every
// edge they point at is answered by a stable union or a prune.

module VamanaPass {
  import opened IdSort
  import opened NeighborUnion
  import opened Options
  import opened Powers

  // --- Graphs ---

  ghost predicate CanonicalVertex(n: nat, degree: nat, v: int, ids: seq<int>) {
    CanonicalList(v, n, ids) && |ids| <= degree
  }

  /** No duplicate, no self edge, nothing out of range, no list above the degree. */
  ghost predicate CanonicalGraph(graph: seq<seq<int>>, degree: nat) {
    forall v :: 0 <= v < |graph| ==> CanonicalVertex(|graph|, degree, v, graph[v])
  }

  /** Pruning returns at most `degree` of its candidates. */
  ghost predicate PruneContract(prune: (int, seq<int>) -> seq<int>, degree: nat) {
    forall v, candidates :: PrunesWell(prune, degree, v, candidates)
  }

  ghost predicate PrunesWell(prune: (int, seq<int>) -> seq<int>, degree: nat, v: int, candidates: seq<int>) {
    var kept := prune(v, candidates);
    |kept| <= degree && forall i :: 0 <= i < |kept| ==> kept[i] in candidates
  }

  /** Search and prune for a new vertex: at most `degree` ids, whatever they are. */
  ghost predicate SearchContract(search: (int, seq<seq<int>>) -> seq<int>, degree: nat) {
    forall v, graph :: |search(v, graph)| <= degree
  }

  // --- One batch ---

  /** What answers the edges that now point at v. */
  function Answer(prune: (int, seq<int>) -> seq<int>, n: nat, degree: nat, v: int, base: seq<int>,
                  incoming: seq<int>): seq<int> {
    var all := Union(v, n, base, incoming);
    if |all| <= degree then all else Union(v, n, [], prune(v, all))
  }

  lemma AnswerIsCanonical(prune: (int, seq<int>) -> seq<int>, n: nat, degree: nat, v: int, base: seq<int>,
                          incoming: seq<int>)
    requires PruneContract(prune, degree)
    ensures CanonicalVertex(n, degree, v, Answer(prune, n, degree, v, base, incoming))
  {
    var all := Union(v, n, base, incoming);
    UniqueIsCanonical(v, n, {}, base + incoming);
    if |all| > degree {
      assert PrunesWell(prune, degree, v, all);
      UniqueIsCanonical(v, n, {}, [] + prune(v, all));
    }
  }

  /** The out-lists of the batch's vertices, in batch order. */
  datatype Batch = Batch(vertices: seq<int>, lists: seq<seq<int>>)

  ghost predicate GoodBatch(b: Batch, n: nat, degree: nat) {
    && |b.vertices| == |b.lists| && NoRepeats(b.vertices)
    && (forall i :: 0 <= i < |b.vertices| ==> 0 <= b.vertices[i] < n)
    && (forall i :: 0 <= i < |b.vertices| ==> CanonicalVertex(n, degree, b.vertices[i], b.lists[i]))
  }

  /** The sources among the first k vertices that now point at v, in batch order. */
  function Incoming(b: Batch, v: int, k: nat): seq<int>
    requires k <= |b.vertices| == |b.lists|
  {
    if k == 0 then [] else Incoming(b, v, k - 1) + (if v in b.lists[k - 1] then [b.vertices[k - 1]] else [])
  }

  lemma {:induction false} InIncoming(b: Batch, v: int, k: nat)
    requires k <= |b.vertices| == |b.lists|
    ensures forall x :: x in Incoming(b, v, k) <==> exists i :: 0 <= i < k && b.vertices[i] == x && v in b.lists[i]
  {
    if k > 0 {
      InIncoming(b, v, k - 1);
    }
  }

  /** The list of v once the batch's own lists are installed. */
  function Base(b: Batch, graph: seq<seq<int>>, v: nat, k: nat): seq<int>
    requires k <= |b.vertices| == |b.lists| && v < |graph|
  {
    if k == 0 then graph[v] else if b.vertices[k - 1] == v then b.lists[k - 1] else Base(b, graph, v, k - 1)
  }

  /** The list of v behind the whole batch. */
  function AfterBatch(prune: (int, seq<int>) -> seq<int>, degree: nat, b: Batch, graph: seq<seq<int>>, v: nat): seq<int>
    requires |b.vertices| == |b.lists| && v < |graph|
  {
    var base, incoming := Base(b, graph, v, |b.vertices|), Incoming(b, v, |b.vertices|);
    if incoming == [] then base else Answer(prune, |graph|, degree, v, base, incoming)
  }

  lemma {:induction false} BaseIsCanonical(b: Batch, graph: seq<seq<int>>, degree: nat, v: nat, k: nat)
    requires CanonicalGraph(graph, degree) && GoodBatch(b, |graph|, degree) && v < |graph| && k <= |b.vertices|
    ensures CanonicalVertex(|graph|, degree, v, Base(b, graph, v, k))
  {
    if k > 0 && b.vertices[k - 1] != v {
      BaseIsCanonical(b, graph, degree, v, k - 1);
    }
  }

  /** Every batch keeps the graph canonical. */
  lemma BatchKeepsGraph(prune: (int, seq<int>) -> seq<int>, degree: nat, b: Batch, graph: seq<seq<int>>,
                        after: seq<seq<int>>)
    requires PruneContract(prune, degree) && CanonicalGraph(graph, degree) && GoodBatch(b, |graph|, degree)
    requires |after| == |graph| && forall v: nat :: v < |graph| ==> after[v] == AfterBatch(prune, degree, b, graph, v)
    ensures CanonicalGraph(after, degree)
  {
    forall v | 0 <= v < |after| ensures CanonicalVertex(|after|, degree, v, after[v]) {
      BaseIsCanonical(b, graph, degree, v, |b.vertices|);
      AnswerIsCanonical(prune, |graph|, degree, v, Base(b, graph, v, |b.vertices|), Incoming(b, v, |b.vertices|));
    }
  }

  /** A new edge is answered: its target points back, unless the target's list overflowed and was pruned. */
  lemma EdgesAreAnswered(prune: (int, seq<int>) -> seq<int>, degree: nat, b: Batch, graph: seq<seq<int>>, i: nat,
                         v: nat)
    requires CanonicalGraph(graph, degree) && GoodBatch(b, |graph|, degree)
    requires i < |b.vertices| && v < |graph| && v in b.lists[i]
    ensures var base, incoming := Base(b, graph, v, |b.vertices|), Incoming(b, v, |b.vertices|);
      |Union(v, |graph|, base, incoming)| <= degree ==>
        b.vertices[i] in AfterBatch(prune, degree, b, graph, v) && base <= AfterBatch(prune, degree, b, graph, v)
  {
    var base, incoming := Base(b, graph, v, |b.vertices|), Incoming(b, v, |b.vertices|);
    InIncoming(b, v, |b.vertices|);
    assert b.vertices[i] in incoming;
    assert incoming != [];
    BaseIsCanonical(b, graph, degree, v, |b.vertices|);
    UnionKeepsFirst(v, |graph|, base, incoming);
    assert b.vertices[i] != v by {
      assert CanonicalVertex(|graph|, degree, b.vertices[i], b.lists[i]);
      var j :| 0 <= j < |b.lists[i]| && b.lists[i][j] == v;
    }
  }

  ghost predicate AllAdmissible(n: nat, v: int, ids: seq<int>) {
    forall i :: 0 <= i < |ids| ==> Admissible(v, n, ids[i])
  }

  /** One vertex of the forward phase. */
  method ForwardList(v: int, n: nat, pruned: seq<int>, degree: nat) returns (fine: bool, ids: seq<int>)
    requires |pruned| <= degree
    ensures fine <==> AllAdmissible(n, v, pruned)
    ensures ids == Union(v, n, [], pruned) && CanonicalVertex(n, degree, v, ids)
  {
    var tally;
    ids, tally := CanonicalNeighborUnion(v, n, [], pruned);
    assert [] + pruned == pruned;
    UniqueIsCanonical(v, n, {}, [] + pruned);
    fine := tally.selves == 0 && tally.outOfRange == 0;
  }

  /** Forward phase: every vertex of the batch searches the graph as it was; a self or foreign id is fatal. */
  method Forward(graph: array<seq<int>>, vertices: seq<int>, search: (int, seq<seq<int>>) -> seq<int>, degree: nat)
    returns (ok: bool, lists: seq<seq<int>>)
    requires SearchContract(search, degree)
    ensures ok <==> forall i :: 0 <= i < |vertices| ==>
      AllAdmissible(graph.Length, vertices[i], search(vertices[i], graph[..]))
    ensures |lists| == |vertices|
    ensures forall i :: 0 <= i < |vertices| ==>
      lists[i] == Union(vertices[i], graph.Length, [], search(vertices[i], graph[..]))
    ensures forall i :: 0 <= i < |vertices| ==> CanonicalVertex(graph.Length, degree, vertices[i], lists[i])
  {
    hide Union, AllAdmissible, CanonicalVertex;
    lists, ok := [], true;
    for i := 0 to |vertices|
      invariant |lists| == i
      invariant forall k :: 0 <= k < i ==>
        lists[k] == Union(vertices[k], graph.Length, [], search(vertices[k], graph[..]))
      invariant forall k :: 0 <= k < i ==> CanonicalVertex(graph.Length, degree, vertices[k], lists[k])
      invariant ok <==> forall k :: 0 <= k < i ==>
        AllAdmissible(graph.Length, vertices[k], search(vertices[k], graph[..]))
    {
      var fine, ids := ForwardList(vertices[i], graph.Length, search(vertices[i], graph[..]), degree);
      ok := ok && fine;
      lists := lists + [ids];
    }
  }

  function Get(grouped: map<int, seq<int>>, v: int): seq<int> {
    if v in grouped then grouped[v] else []
  }

  ghost predicate GoodGroups(grouped: map<int, seq<int>>, n: nat) {
    forall v :: v in grouped ==> 0 <= v < n && grouped[v] != []
  }

  /** One vertex's new edges, added to the groups of their targets. */
  method AddEdges(grouped: map<int, seq<int>>, source: int, targets: seq<int>, n: nat)
    returns (more: map<int, seq<int>>)
    requires CanonicalList(source, n, targets) && GoodGroups(grouped, n)
    ensures forall v :: Get(more, v) == Get(grouped, v) + (if v in targets then [source] else [])
    ensures GoodGroups(more, n)
  {
    more := grouped;
    for j := 0 to |targets|
      invariant forall v :: Get(more, v) == Get(grouped, v) + (if v in targets[..j] then [source] else [])
      invariant GoodGroups(more, n)
    {
      assert targets[..j + 1] == targets[..j] + [targets[j]];
      assert targets[j] !in targets[..j];
      more := more[targets[j] := Get(more, targets[j]) + [source]];
    }
    assert targets[..|targets|] == targets;
  }

  /** Groups the new edges by the vertex they point at. */
  method GroupByTarget(b: Batch, n: nat, degree: nat) returns (grouped: map<int, seq<int>>)
    requires GoodBatch(b, n, degree)
    ensures forall v :: Get(grouped, v) == Incoming(b, v, |b.vertices|)
    ensures GoodGroups(grouped, n)
  {
    hide CanonicalList;
    grouped := map[];
    for i := 0 to |b.vertices|
      invariant forall v :: Get(grouped, v) == Incoming(b, v, i)
      invariant GoodGroups(grouped, n)
    {
      assert CanonicalVertex(n, degree, b.vertices[i], b.lists[i]);
      grouped := AddEdges(grouped, b.vertices[i], b.lists[i], n);
    }
  }

  method Install(graph: array<seq<int>>, b: Batch, degree: nat)
    requires GoodBatch(b, graph.Length, degree)
    modifies graph
    ensures forall v: nat :: v < graph.Length ==> graph[v] == Base(b, old(graph[..]), v, |b.vertices|)
  {
    for i := 0 to |b.vertices|
      invariant forall v: nat :: v < graph.Length ==> graph[v] == Base(b, old(graph[..]), v, i)
    {
      graph[b.vertices[i]] := b.lists[i];
    }
  }

  /** Reverse phase: the groups are answered in any order. No id it meets can be fatal. */
  method Reverse(graph: array<seq<int>>, grouped: map<int, seq<int>>, prune: (int, seq<int>) -> seq<int>, degree: nat)
    returns (ok: bool)
    requires PruneContract(prune, degree) && GoodGroups(grouped, graph.Length)
    requires CanonicalGraph(graph[..], degree)
    requires forall v :: v in grouped ==> AllAdmissible(graph.Length, v, grouped[v])
    modifies graph
    ensures ok
    ensures forall v: nat :: v < graph.Length ==>
      graph[v] == if v in grouped then Answer(prune, graph.Length, degree, v, old(graph[v]), grouped[v])
                  else old(graph[v])
  {
    hide Answer, Union, AllAdmissible, CanonicalGraph, PruneContract;
    var waiting := grouped.Keys;
    ok := true;
    ghost var before := graph[..];
    while waiting != {}
      invariant ok && waiting <= grouped.Keys
      invariant forall v: nat :: v < graph.Length ==>
        var done := v in grouped && v !in waiting;
        graph[v] == (if done then Answer(prune, graph.Length, degree, v, before[v], grouped[v]) else before[v])
      decreases waiting
    {
      var v :| v in waiting;
      waiting := waiting - {v};
      AnswerMeetsNothingFatal(prune, graph.Length, degree, v, graph[v], grouped[v], before);
      var answer := AnswerGroup(v, graph.Length, graph[v], grouped[v], prune, degree);
      if answer.None? {
        ok := false;
      } else {
        graph[v] := answer.value;
      }
    }
  }

  /** One group: the union, or its pruned form; a self or foreign id in either is fatal. */
  method AnswerGroup(v: int, n: nat, base: seq<int>, incoming: seq<int>, prune: (int, seq<int>) -> seq<int>,
                     degree: nat)
    returns (answer: Option<seq<int>>)
    ensures answer.Some? ==> answer.value == Answer(prune, n, degree, v, base, incoming)
    ensures answer.Some? <==>
      && AllAdmissible(n, v, base + incoming)
      && (|Union(v, n, base, incoming)| > degree ==>
           AllAdmissible(n, v, [] + prune(v, Union(v, n, base, incoming))))
  {
    hide Union;
    var all, tally := CanonicalNeighborUnion(v, n, base, incoming);
    if tally.outOfRange != 0 || tally.selves != 0 {
      return None;
    }
    if |all| <= degree {
      return Some(all);
    }
    var kept, tally' := CanonicalNeighborUnion(v, n, [], prune(v, all));
    if tally'.outOfRange != 0 || tally'.selves != 0 {
      return None;
    }
    return Some(kept);
  }

  lemma AnswerMeetsNothingFatal(prune: (int, seq<int>) -> seq<int>, n: nat, degree: nat, v: int, base: seq<int>,
                                incoming: seq<int>, graph: seq<seq<int>>)
    requires PruneContract(prune, degree) && CanonicalGraph(graph, degree) && |graph| == n
    requires 0 <= v < n && base == graph[v] && AllAdmissible(n, v, incoming)
    ensures AllAdmissible(n, v, base + incoming)
    ensures AllAdmissible(n, v, [] + prune(v, Union(v, n, base, incoming)))
  {
    assert CanonicalVertex(n, degree, v, graph[v]);
    var all := Union(v, n, base, incoming);
    UniqueIsCanonical(v, n, {}, base + incoming);
    assert PrunesWell(prune, degree, v, all);
  }

  /** No search of the batch returns the vertex itself or a foreign id. */
  ghost predicate Harmless(search: (int, seq<seq<int>>) -> seq<int>, vertices: seq<int>, graph: seq<seq<int>>) {
    forall i :: 0 <= i < |vertices| ==> AllAdmissible(|graph|, vertices[i], search(vertices[i], graph))
  }

  /** The batch a set of vertices makes, every one of them searching the same graph. */
  ghost function BatchOf(search: (int, seq<seq<int>>) -> seq<int>, vertices: seq<int>, graph: seq<seq<int>>): Batch {
    Batch(vertices, seq(|vertices|, i requires 0 <= i < |vertices| =>
      Union(vertices[i], |graph|, [], search(vertices[i], graph))))
  }

  /** `after` is `graph` behind that batch. */
  ghost predicate Follows(search: (int, seq<seq<int>>) -> seq<int>, prune: (int, seq<int>) -> seq<int>, degree: nat,
                          vertices: seq<int>, graph: seq<seq<int>>, after: seq<seq<int>>) {
    && Harmless(search, vertices, graph) && |after| == |graph|
    && forall v: nat :: v < |graph| ==>
      after[v] == AfterBatch(prune, degree, BatchOf(search, vertices, graph), graph, v)
  }

  /** One batch: an error exactly when a search returned the vertex itself or a foreign id. */
  method RunBatch(graph: array<seq<int>>, vertices: seq<int>, search: (int, seq<seq<int>>) -> seq<int>,
                  prune: (int, seq<int>) -> seq<int>, degree: nat) returns (ok: bool)
    requires SearchContract(search, degree) && PruneContract(prune, degree) && CanonicalGraph(graph[..], degree)
    requires NoRepeats(vertices) && forall i :: 0 <= i < |vertices| ==> 0 <= vertices[i] < graph.Length
    modifies graph
    ensures ok <==> Harmless(search, vertices, old(graph[..]))
    ensures ok ==> Follows(search, prune, degree, vertices, old(graph[..]), graph[..])
    ensures !ok ==> graph[..] == old(graph[..])
    ensures CanonicalGraph(graph[..], degree)
  {
    hide CanonicalVertex, AllAdmissible, Union;
    ghost var before := graph[..];
    var forward, lists := Forward(graph, vertices, search, degree);
    var batch := Batch(vertices, lists);
    assert batch == BatchOf(search, vertices, before);
    if !forward {
      return false;
    }
    var grouped := GroupByTarget(batch, graph.Length, degree);
    Install(graph, batch, degree);
    ghost var installed := graph[..];
    forall v | 0 <= v < graph.Length ensures CanonicalVertex(graph.Length, degree, v, installed[v]) {
      BaseIsCanonical(batch, before, degree, v, |vertices|);
    }
    forall v | v in grouped ensures AllAdmissible(graph.Length, v, grouped[v]) {
      assert Get(grouped, v) == grouped[v];
      SourcesAreAdmissible(batch, graph.Length, degree, v);
    }
    ok := Reverse(graph, grouped, prune, degree);
    forall v: nat | v < graph.Length ensures graph[v] == AfterBatch(prune, degree, batch, before, v) {
      assert Get(grouped, v) == Incoming(batch, v, |vertices|);
    }
    BatchKeepsGraph(prune, degree, batch, before, graph[..]);
  }

  lemma SourcesAreAdmissible(b: Batch, n: nat, degree: nat, v: int)
    requires GoodBatch(b, n, degree)
    ensures AllAdmissible(n, v, Incoming(b, v, |b.vertices|))
  {
    var sources := Incoming(b, v, |b.vertices|);
    InIncoming(b, v, |b.vertices|);
    forall k | 0 <= k < |sources| ensures Admissible(v, n, sources[k]) {
      assert sources[k] in sources;
      var i :| 0 <= i < |b.vertices| && b.vertices[i] == sources[k] && v in b.lists[i];
      assert CanonicalVertex(n, degree, b.vertices[i], b.lists[i]);
      var j :| 0 <= j < |b.lists[i]| && b.lists[i][j] == v;
    }
  }

  lemma {:induction false} BaseMeans(b: Batch, graph: seq<seq<int>>, v: nat, k: nat)
    requires k <= |b.vertices| == |b.lists| && v < |graph| && NoRepeats(b.vertices)
    ensures forall i :: 0 <= i < k && b.vertices[i] == v ==> Base(b, graph, v, k) == b.lists[i]
    ensures v !in b.vertices[..k] ==> Base(b, graph, v, k) == graph[v]
  {
    if k > 0 {
      BaseMeans(b, graph, v, k - 1);
      assert b.vertices[..k] == b.vertices[..k - 1] + [b.vertices[k - 1]];
    }
  }

  lemma {:induction false} IncomingInOrder(b: Batch, v: int, k: nat)
    requires k <= |b.vertices| == |b.lists| && NoRepeats(b.vertices)
    ensures InOrderOf(b.vertices, Incoming(b, v, k))
  {
    hide Leads;
    if k > 0 {
      IncomingInOrder(b, v, k - 1);
      InIncoming(b, v, k - 1);
      var before := Incoming(b, v, k - 1);
      forall i | 0 <= i < |before| ensures Leads(b.vertices, before[i], b.vertices[k - 1]) {
        assert before[i] in before;
        var p :| 0 <= p < k - 1 && b.vertices[p] == before[i];
        LeadsAt(b.vertices, p, k - 1);
      }
    }
  }

  lemma LeadsAt(all: seq<int>, p: nat, q: nat)
    requires NoRepeats(all) && p < q < |all|
    ensures Leads(all, all[p], all[q])
  {
    assert all[q] !in all[..p + 1];
  }

  /** The graph behind a batch, vertex by vertex. Each list of the batch keeps what
      its search found, and replaces the vertex's own. The sources that point at a
      vertex, in batch order, come behind its list; if that is longer than the
      degree, what is kept of it is what prune returned on it, in that order. */
  lemma BatchMeans(search: (int, seq<seq<int>>) -> seq<int>, prune: (int, seq<int>) -> seq<int>, degree: nat,
                   vertices: seq<int>, graph: seq<seq<int>>, after: seq<seq<int>>)
    returns (lists: seq<seq<int>>, installed: seq<seq<int>>, sources: seq<seq<int>>, candidates: seq<seq<int>>)
    requires SearchContract(search, degree) && CanonicalGraph(graph, degree) && NoRepeats(vertices)
    requires forall i :: 0 <= i < |vertices| ==> 0 <= vertices[i] < |graph|
    requires Follows(search, prune, degree, vertices, graph, after)
    ensures |lists| == |vertices| && |installed| == |sources| == |candidates| == |graph| == |after|
    ensures forall i :: 0 <= i < |vertices| ==>
      Firsts(vertices[i], |graph|, search(vertices[i], graph), lists[i])
    ensures forall i :: 0 <= i < |vertices| ==> installed[vertices[i]] == lists[i]
    ensures forall v :: 0 <= v < |graph| && v !in vertices ==> installed[v] == graph[v]
    ensures forall v, x :: 0 <= v < |graph| ==>
      (x in sources[v] <==> exists i :: 0 <= i < |vertices| && vertices[i] == x && v in lists[i])
    ensures forall v :: 0 <= v < |graph| ==> InOrderOf(vertices, sources[v])
    ensures forall v :: 0 <= v < |graph| ==>
      installed[v] <= candidates[v] && Firsts(v, |graph|, installed[v] + sources[v], candidates[v])
    ensures forall v :: 0 <= v < |graph| ==>
      if sources[v] == [] then after[v] == installed[v]
      else if |candidates[v]| <= degree then after[v] == candidates[v]
      else Firsts(v, |graph|, prune(v, candidates[v]), after[v])
  {
    hide Firsts, InOrderOf, Union, CanonicalList;
    var n := |graph|;
    var b := BatchOf(search, vertices, graph);
    lists := b.lists;
    BatchIsGood(search, degree, vertices, graph);
    installed := seq(n, v requires 0 <= v < n => Base(b, graph, v, |vertices|));
    sources := seq(n, v => Incoming(b, v, |vertices|));
    candidates := seq(n, v requires 0 <= v < n => Union(v, n, installed[v], sources[v]));
    forall i | 0 <= i < |vertices| ensures Firsts(vertices[i], n, search(vertices[i], graph), lists[i]) {
      UnionIsFirsts(vertices[i], n, [], search(vertices[i], graph));
      assert [] + search(vertices[i], graph) == search(vertices[i], graph);
    }
    forall v: nat | v < n
      ensures forall i :: 0 <= i < |vertices| && vertices[i] == v ==> installed[v] == lists[i]
      ensures v !in vertices ==> installed[v] == graph[v]
    {
      BaseMeans(b, graph, v, |vertices|);
      assert vertices[..|vertices|] == vertices;
    }
    forall v: nat | v < n
      ensures forall x ::
        x in sources[v] <==> exists i :: 0 <= i < |vertices| && vertices[i] == x && v in lists[i]
      ensures InOrderOf(vertices, sources[v])
    {
      InIncoming(b, v, |vertices|);
      IncomingInOrder(b, v, |vertices|);
    }
    forall v: nat | v < n
      ensures installed[v] <= candidates[v] && Firsts(v, n, installed[v] + sources[v], candidates[v])
      ensures if sources[v] == [] then after[v] == installed[v]
        else if |candidates[v]| <= degree then after[v] == candidates[v]
        else Firsts(v, n, prune(v, candidates[v]), after[v])
    {
      BaseIsCanonical(b, graph, degree, v, |vertices|);
      UnionKeepsFirst(v, n, installed[v], sources[v]);
      UnionIsFirsts(v, n, installed[v], sources[v]);
      UnionIsFirsts(v, n, [], prune(v, candidates[v]));
      assert [] + prune(v, candidates[v]) == prune(v, candidates[v]);
      assert after[v] == AfterBatch(prune, degree, b, graph, v);
    }
  }

  lemma BatchIsGood(search: (int, seq<seq<int>>) -> seq<int>, degree: nat, vertices: seq<int>, graph: seq<seq<int>>)
    requires SearchContract(search, degree) && NoRepeats(vertices)
    requires forall i :: 0 <= i < |vertices| ==> 0 <= vertices[i] < |graph|
    ensures GoodBatch(BatchOf(search, vertices, graph), |graph|, degree)
  {
    hide Union, CanonicalList;
    forall i | 0 <= i < |vertices|
      ensures CanonicalVertex(|graph|, degree, vertices[i], BatchOf(search, vertices, graph).lists[i])
    {
      var found := search(vertices[i], graph);
      assert [] + found == found;
      UniqueIsCanonical(vertices[i], |graph|, {}, [] + found);
      ListIsUnique(vertices[i], |graph|, found);
    }
  }

  lemma ListIsUnique(v: int, n: nat, found: seq<int>)
    ensures Union(v, n, [], found) == Unique(v, n, {}, [] + found)
  {
  }

  // --- The schedule of batches ---

  datatype Span = Span(first: nat, end: nat)

  /** Consecutive spans from 0 to `end`. */
  ghost predicate Tiles(spans: seq<Span>, end: nat) {
    if spans == [] then end == 0
    else
      var last := spans[|spans| - 1];
      last.first <= last.end == end && Tiles(spans[..|spans| - 1], last.first)
  }

  /** Round k takes 2^k vertices while that is within the cap, but leaves the
      last vertex to a later round; from then on it takes the cap, or what is left. */
  ghost predicate Paced(k: nat, span: Span, m: nat, cap: nat) {
    && span.first < m && span.first <= span.end
    && span.end - span.first ==
       if Pow2(k) <= cap then (if span.first + Pow2(k) < m then Pow2(k) else m - 1 - span.first)
       else if span.first + cap < m then cap else m - span.first
  }

  /** The rounds of the pass, up to vertex `end`. */
  ghost predicate IsSchedule(spans: seq<Span>, end: nat, m: nat, cap: nat) {
    Tiles(spans, end) && forall k :: 0 <= k < |spans| ==> Paced(k, spans[k], m, cap)
  }

  /** There is one schedule of any number of rounds. */
  lemma {:induction false} ScheduleIsUnique(s: seq<Span>, t: seq<Span>, i: nat, j: nat, m: nat, cap: nat)
    requires IsSchedule(s, i, m, cap) && IsSchedule(t, j, m, cap) && |s| == |t|
    ensures s == t && i == j
    decreases |s|
  {
    if s != [] {
      var k := |s| - 1;
      ScheduleIsUnique(s[..k], t[..k], s[k].first, t[k].first, m, cap);
      assert Paced(k, s[k], m, cap) && Paced(k, t[k], m, cap);
      assert s == s[..k] + [s[k]] && t == t[..k] + [t[k]];
    }
  }

  /** How far the doubling has come when round `inc` begins. */
  ghost predicate Doubled(inc: nat, count: nat, m: nat, cap: nat) {
    Pow2(inc) <= cap ==> count == Pow2(inc) - 1
  }

  /** The next batch: doubling up to the cap, then by the cap. */
  method NextSpan(inc: nat, count: nat, m: nat, cap: nat) returns (span: Span, next: nat)
    requires 0 < cap <= m && count < m && Doubled(inc, count, m, cap)
    ensures span.first == count && span.end == (if next < m then next else m)
    ensures Paced(inc, span, m, cap) && Doubled(inc + 1, next, m, cap)
    ensures next >= count && (Pow2(inc) > cap ==> next > count)
  {
    if Pow2(inc) <= cap {
      var first := Pow2(inc) - 1;
      var end := (if Pow2(inc + 1) < m then Pow2(inc + 1) else m) - 1;
      return Span(first, end), end;
    }
    var end := if count + cap < m then count + cap else m;
    return Span(count, end), count + cap;
  }

  lemma ScheduleExtends(spans: seq<Span>, span: Span, m: nat, cap: nat)
    requires IsSchedule(spans, span.first, m, cap) && Paced(|spans|, span, m, cap)
    ensures IsSchedule(spans + [span], span.end, m, cap)
  {
    assert (spans + [span])[..|spans|] == spans;
  }

  /** Every index lies in exactly one span. */
  lemma {:induction false} TilesCover(spans: seq<Span>, end: nat, i: nat) returns (k: nat)
    requires Tiles(spans, end) && i < end
    ensures k < |spans| && spans[k].first <= i < spans[k].end
    ensures forall j :: 0 <= j < |spans| && spans[j].first <= i < spans[j].end ==> j == k
    decreases spans
  {
    var most, last := spans[..|spans| - 1], spans[|spans| - 1];
    if i < last.first {
      k := TilesCover(most, last.first, i);
      assert forall j :: 0 <= j < |most| ==> spans[j] == most[j];
    } else {
      k := |spans| - 1;
      forall j | 0 <= j < |spans| - 1 ensures spans[j].end <= i {
        SpansStayBelow(most, last.first, j);
        assert spans[j] == most[j];
      }
    }
  }

  lemma {:induction false} SpansStayBelow(spans: seq<Span>, end: nat, j: nat)
    requires Tiles(spans, end) && j < |spans|
    ensures spans[j].first <= spans[j].end <= end
    decreases spans
  {
    if j < |spans| - 1 {
      SpansStayBelow(spans[..|spans| - 1], spans[|spans| - 1].first, j);
    }
  }

  lemma {:induction false} TilesAdjacent(spans: seq<Span>, end: nat, k: nat)
    requires Tiles(spans, end) && k < |spans|
    ensures spans[k].first == if k == 0 then 0 else spans[k - 1].end
    decreases |spans|
  {
    if k < |spans| - 1 {
      TilesAdjacent(spans[..|spans| - 1], spans[|spans| - 1].first, k);
    }
  }

  /** Round k of a schedule begins behind 2^k - 1 vertices while 2^k is within the
      cap, but never behind the last; a later round ends a cap further on, or at the end. */
  lemma {:induction false} RoundsDouble(spans: seq<Span>, end: nat, m: nat, cap: nat, k: nat)
    requires IsSchedule(spans, end, m, cap) && k < |spans|
    ensures spans[0].first == 0 && (k > 0 ==> spans[k].first == spans[k - 1].end)
    ensures Pow2(k) <= cap ==> spans[k].first == if Pow2(k) <= m then Pow2(k) - 1 else m - 1
    ensures Pow2(k) > cap ==> spans[k].end == if spans[k].first + cap <= m then spans[k].first + cap else m
  {
    TilesAdjacent(spans, end, 0);
    TilesAdjacent(spans, end, k);
    assert Paced(k, spans[k], m, cap);
    if k > 0 && Pow2(k) <= cap {
      RoundsDouble(spans, end, m, cap, k - 1);
      assert Paced(k - 1, spans[k - 1], m, cap);
    }
  }

  // --- The whole pass ---

  function VerticesOf(order: seq<int>, span: Span): seq<int> {
    if span.first <= span.end <= |order| then order[span.first..span.end] else []
  }

  /** The graphs between the batches: each follows from the one before by its own batch. */
  ghost predicate PassThrough(search: (int, seq<seq<int>>) -> seq<int>, prune: (int, seq<int>) -> seq<int>, degree: nat,
                              order: seq<int>, spans: seq<Span>, graphs: seq<seq<seq<int>>>) {
    && |graphs| <= |spans| + 1
    && forall k :: 0 < k < |graphs| ==>
      Follows(search, prune, degree, VerticesOf(order, spans[k - 1]), graphs[k - 1], graphs[k])
  }

  /** A vertex is in a batch exactly when its place in the order is. */
  lemma PlaceInSpan(order: seq<int>, span: Span, i: nat)
    requires NoRepeats(order) && i < |order| && span.first <= span.end <= |order|
    ensures order[i] in VerticesOf(order, span) <==> span.first <= i < span.end
  {
    var vertices := VerticesOf(order, span);
    if span.first <= i < span.end {
      assert vertices[i - span.first] == order[i];
    }
  }

  /** Every vertex is inserted by exactly one batch of a complete schedule. */
  lemma EachInsertedOnce(order: seq<int>, spans: seq<Span>, v: int) returns (k: nat)
    requires NoRepeats(order) && Tiles(spans, |order|) && v in order
    ensures k < |spans| && v in VerticesOf(order, spans[k])
    ensures forall j :: 0 <= j < |spans| && v in VerticesOf(order, spans[j]) ==> j == k
  {
    hide Tiles, NoRepeats, VerticesOf;
    var i :| 0 <= i < |order| && order[i] == v;
    k := TilesCover(spans, |order|, i);
    SpansStayBelow(spans, |order|, k);
    PlaceInSpan(order, spans[k], i);
    forall j | 0 <= j < |spans| && v in VerticesOf(order, spans[j]) ensures j == k {
      SpansStayBelow(spans, |order|, j);
      PlaceInSpan(order, spans[j], i);
    }
  }

  /** The whole pass: `graphs` are the graphs between its batches. It fails
      exactly when a batch's search, on the graph as that batch found it,
      returned the vertex itself or a foreign id; that batch leaves no trace. */
  method CanonicalPass(graph: array<seq<int>>, order: seq<int>, search: (int, seq<seq<int>>) -> seq<int>,
                       prune: (int, seq<int>) -> seq<int>, degree: nat, cap: nat)
    returns (ok: bool, ghost spans: seq<Span>, ghost graphs: seq<seq<seq<int>>>)
    requires cap <= graph.Length == |order| && (graph.Length > 0 ==> cap > 0)
    requires NoRepeats(order) && forall i :: 0 <= i < |order| ==> 0 <= order[i] < graph.Length
    requires SearchContract(search, degree) && PruneContract(prune, degree) && CanonicalGraph(graph[..], degree)
    modifies graph
    ensures graphs != [] && graphs[0] == old(graph[..]) && graphs[|graphs| - 1] == graph[..]
    ensures PassThrough(search, prune, degree, order, spans, graphs)
    ensures forall k :: 0 <= k < |graphs| ==> CanonicalGraph(graphs[k], degree)
    ensures ok ==> |graphs| == |spans| + 1 && IsSchedule(spans, |order|, |order|, cap)
    ensures !ok ==> |graphs| == |spans| && exists end :: IsSchedule(spans, end, |order|, cap)
    ensures !ok ==> !Harmless(search, VerticesOf(order, spans[|spans| - 1]), graph[..])
  {
    hide CanonicalGraph, AfterBatch, GoodBatch, AllAdmissible, Union, Follows, Harmless, Tiles, Paced;
    var m := |order|;
    var inc, count := 0, 0;
    spans, graphs := [], [graph[..]];
    StartsEmpty(m, cap);
    while count < m
      invariant Doubled(inc, count, m, cap) && inc == |spans|
      invariant IsSchedule(spans, if count < m then count else m, m, cap)
      invariant |graphs| == |spans| + 1 && graphs[0] == old(graph[..]) && graphs[|graphs| - 1] == graph[..]
      invariant PassThrough(search, prune, degree, order, spans, graphs)
      invariant forall k :: 0 <= k < |graphs| ==> CanonicalGraph(graphs[k], degree)
      decreases if Pow2(inc) <= cap then 1 else 0, if Pow2(inc) <= cap then cap - Pow2(inc) else m - count
    {
      var span, next := NextSpan(inc, count, m, cap);
      SpanFits(inc, span, m, cap);
      var vertices := order[span.first..span.end];
      ScheduleExtends(spans, span, m, cap);
      var fine := RunBatch(graph, vertices, search, prune, degree);
      spans := spans + [span];
      if !fine {
        return false, spans, graphs;
      }
      graphs := graphs + [graph[..]];
      count, inc := next, inc + 1;
    }
    ok := true;
  }

  lemma StartsEmpty(m: nat, cap: nat)
    ensures IsSchedule([], 0, m, cap)
  {
  }

  lemma SpanFits(k: nat, span: Span, m: nat, cap: nat)
    requires Paced(k, span, m, cap)
    ensures span.first <= span.end <= m
  {
  }
}

// The data set, its predicates and the naive support of a predicate: the
// reference every execution plan is compared with.

module Supports {
  import opened Options
  import opened Ranking
  import opened DistanceKernels
  import opened TopKScan
  import opened IdSort

  /** Label domains of the three schema columns. */
  datatype Schema = Schema(bins: nat, aCount: nat, bCount: nat)

  datatype Data = Data(schema: Schema, vectors: seq<Vector>, catA: seq<nat>, catB: seq<nat>, bin: seq<nat>)

  ghost predicate ValidData(d: Data) {
    && |d.catA| == |d.vectors| && |d.catB| == |d.vectors| && |d.bin| == |d.vectors|
    && forall g :: 0 <= g < |d.vectors| ==>
         d.catA[g] < d.schema.aCount && d.catB[g] < d.schema.bCount && d.bin[g] < d.schema.bins
  }

  datatype Spec =
    | Equality(a: nat)
    | Conjunction(a: nat, b: nat)
    | Range(lo: nat, hi: nat)
    | Dnf(a: nat, b: nat, c: nat, d: nat)

  /** What the workload loader admits; a DNF names two different pairs. */
  predicate ValidSpec(s: Schema, spec: Spec) {
    match spec
    case Equality(a) => a < s.aCount
    case Conjunction(a, b) => a < s.aCount && b < s.bCount
    case Range(lo, hi) => lo <= hi < s.bins
    case Dnf(a, b, c, d) => a < s.aCount && b < s.bCount && c < s.aCount && d < s.bCount && (a, b) != (c, d)
  }

  predicate MatchesLabels(spec: Spec, bin: nat, a: nat, b: nat) {
    match spec
    case Equality(x) => a == x
    case Conjunction(x, y) => a == x && b == y
    case Range(lo, hi) => lo <= bin <= hi
    case Dnf(x, y, z, w) => (a == x && b == y) || (a == z && b == w)
  }

  predicate Matches(d: Data, spec: Spec, id: nat)
    requires |d.catA| == |d.vectors| && |d.catB| == |d.vectors| && |d.bin| == |d.vectors|
  {
    id < |d.vectors| && MatchesLabels(spec, d.bin[id], d.catA[id], d.catB[id])
  }

  ghost predicate Ascending(s: seq<nat>) {
    forall i, j :: 0 <= i < j < |s| ==> s[i] < s[j]
  }

  /** `ids` lists, in ascending order, exactly the rows that match. */
  ghost predicate IsSupport(d: Data, spec: Spec, ids: seq<nat>)
    requires |d.catA| == |d.vectors| && |d.catB| == |d.vectors| && |d.bin| == |d.vectors|
  {
    Ascending(ids) && forall g: nat :: g in ids <==> Matches(d, spec, g)
  }

  // --- Postings, and the support computed from them ---

  /** Ascending ids below n whose label is v. */
  function Posting(labels: seq<nat>, v: nat, n: nat): (ids: seq<nat>)
    requires n <= |labels|
    ensures Ascending(ids)
    ensures forall g: nat :: g in ids <==> g < n && labels[g] == v
  {
    if n == 0 then [] else
      var before := Posting(labels, v, n - 1);
      assert forall i :: 0 <= i < |before| ==> before[i] in before;
      before + if labels[n - 1] == v then [n - 1] else []
  }

  /** Ascending ids below n in pair (a, b). */
  function PairPosting(d: Data, a: nat, b: nat, n: nat): (ids: seq<nat>)
    requires n <= |d.catA| && n <= |d.catB|
    ensures Ascending(ids)
    ensures forall g: nat :: g in ids <==> g < n && d.catA[g] == a && d.catB[g] == b
  {
    if n == 0 then [] else
      var before := PairPosting(d, a, b, n - 1);
      assert forall i :: 0 <= i < |before| ==> before[i] in before;
      before + if d.catA[n - 1] == a && d.catB[n - 1] == b then [n - 1] else []
  }

  function InsertUnique(x: nat, s: seq<nat>): (t: seq<nat>)
    requires Ascending(s)
    ensures Ascending(t) && forall g: nat :: g in t <==> g == x || g in s
  {
    if s == [] || x < s[0] then
      var t := [x] + s;
      assert forall i :: 0 <= i < |s| ==> s[0] <= s[i];
      t
    else if x == s[0] then s
    else
      var rest := InsertUnique(x, s[1..]);
      assert forall i :: 0 <= i < |rest| ==> rest[i] in rest;
      assert s == [s[0]] + s[1..];
      [s[0]] + rest
  }

  /** sort, then erase repeats. */
  function SortUnique(s: seq<nat>): (t: seq<nat>)
    ensures Ascending(t) && forall g: nat :: g in t <==> g in s
  {
    if s == [] then [] else
      assert s == [s[0]] + s[1..];
      InsertUnique(s[0], SortUnique(s[1..]))
  }

  /** support(): postings concatenated, sorted and made unique. */
  method Support(d: Data, spec: Spec) returns (ids: seq<nat>)
    requires ValidData(d)
    ensures IsSupport(d, spec, ids)
  {
    var n := |d.vectors|;
    match spec
    case Equality(a) =>
      ids := Posting(d.catA, a, n);
    case Conjunction(a, b) =>
      ids := PairPosting(d, a, b, n);
    case Range(lo, hi) =>
      var out := [];
      var x := lo;
      while x <= hi
        invariant forall g: nat :: g in out <==> g < n && lo <= d.bin[g] < x && d.bin[g] <= hi
        decreases hi + 1 - x
      {
        out := out + Posting(d.bin, x, n);
        x := x + 1;
      }
      ids := SortUnique(out);
    case Dnf(a, b, c, e) =>
      ids := SortUnique(PairPosting(d, a, b, n) + PairPosting(d, c, e, n));
  }

  // --- Rows of a list of ids ---

  ghost predicate InData(d: Data, ids: seq<nat>) {
    forall i :: 0 <= i < |ids| ==> ids[i] < |d.vectors|
  }

  ghost function RowsOf(d: Data, ids: seq<nat>): (rows: seq<Candidate>)
    requires InData(d, ids)
    ensures |rows| == |ids|
  {
    seq(|ids|, i requires 0 <= i < |ids| => Candidate(d.vectors[ids[i]], ids[i]))
  }

  /** The exact answer over a list of ids: the k least by (distance, id). */
  ghost function ExactOver(d: Data, query: Vector, ids: seq<nat>, k: nat): Option<seq<int>>
    requires InData(d, ids)
  {
    Answer(Hits(query, RowsOf(d, ids)), k)
  }

  /** `result` is the ranking of the whole support of the predicate. */
  ghost predicate IsExact(d: Data, spec: Spec, query: Vector, k: nat, result: Option<seq<int>>)
    requires ValidData(d)
  {
    exists ids :: IsSupport(d, spec, ids) && InData(d, ids) && result == ExactOver(d, query, ids, k)
  }

  /** The order of a list of ids does not matter for the hits it yields. */
  lemma HitContents(d: Data, query: Vector, s: seq<nat>, t: seq<nat>)
    requires InData(d, s) && InData(d, t) && multiset(s) == multiset(t)
    ensures multiset(Hits(query, RowsOf(d, s))) == multiset(Hits(query, RowsOf(d, t)))
  {
    var f := (g: nat) => if g < |d.vectors| then HitOf(query, Candidate(d.vectors[g], g)) else Hit(0, 0);
    MapContents(f, s, t);
    assert Hits(query, RowsOf(d, s)) == Map(f, s);
    assert Hits(query, RowsOf(d, t)) == Map(f, t);
  }

  /** Any visit of the matching rows, each once and in any order, is exact. */
  lemma VisitIsExact(d: Data, spec: Spec, query: Vector, k: nat, visited: seq<nat>)
    requires ValidData(d) && NoRepeats(visited)
    requires forall g: nat :: g in visited <==> Matches(d, spec, g)
    ensures InData(d, visited)
    ensures IsExact(d, spec, query, k, ExactOver(d, query, visited, k))
  {
    forall i | 0 <= i < |visited| ensures visited[i] < |d.vectors| {
      assert visited[i] in visited;
    }
    var ids := SortUnique(visited);
    forall i | 0 <= i < |ids| ensures ids[i] < |d.vectors| {
      assert ids[i] in ids;
    }
    SameElements(visited, ids);
    SameLength(visited, ids);
    HitContents(d, query, visited, ids);
    TopKIgnoresOrder(Hits(query, RowsOf(d, visited)), Hits(query, RowsOf(d, ids)), k);
    assert IsSupport(d, spec, ids);
  }

  lemma TailMembers(s: seq<nat>)
    requires Ascending(s) && s != []
    ensures forall g: nat :: g in s[1..] <==> g in s && g != s[0]
  {
    assert s == [s[0]] + s[1..];
    assert forall i :: 0 <= i < |s| - 1 ==> s[1..][i] > s[0];
  }

  lemma {:induction false} AscendingIsUnique(s: seq<nat>, t: seq<nat>)
    requires Ascending(s) && Ascending(t) && forall g: nat :: g in s <==> g in t
    ensures s == t
  {
    assert |t| > 0 ==> t[0] in t;
    if s != [] {
      assert s[0] in s;
      assert s[0] in t && t[0] in s;
      assert s[0] == t[0];
      assert s == [s[0]] + s[1..] && t == [t[0]] + t[1..];
      TailMembers(s);
      TailMembers(t);
      AscendingIsUnique(s[1..], t[1..]);
    }
  }

  /** The exact answer is a single value: plans that are exact agree. */
  lemma ExactIsUnique(d: Data, spec: Spec, query: Vector, k: nat, x: Option<seq<int>>, y: Option<seq<int>>)
    requires ValidData(d) && IsExact(d, spec, query, k, x) && IsExact(d, spec, query, k, y)
    ensures x == y
  {
    var s :| IsSupport(d, spec, s) && InData(d, s) && x == ExactOver(d, query, s, k);
    var t :| IsSupport(d, spec, t) && InData(d, t) && y == ExactOver(d, query, t, k);
    AscendingIsUnique(s, t);
  }

  lemma SupportSize(d: Data, spec: Spec, ids: seq<nat>)
    requires ValidData(d) && IsSupport(d, spec, ids)
    ensures |set g: nat | g < |d.vectors| && Matches(d, spec, g)| == |ids|
  {
    MembersCounted(ids);
    assert (set g: nat | g < |d.vectors| && Matches(d, spec, g)) == Members(ids);
  }

  ghost function Members(ids: seq<nat>): set<nat> {
    set g | g in ids
  }

  lemma {:induction false} MembersCounted(ids: seq<nat>)
    requires Ascending(ids)
    ensures |Members(ids)| == |ids|
  {
    if ids != [] {
      TailMembers(ids);
      MembersCounted(ids[1..]);
      assert Members(ids) == Members(ids[1..]) + {ids[0]};
    }
  }

  /** A ranking of rows with different ids, spelled out on the ids alone. */
  lemma PicksMeans(distance: int -> int, hits: seq<Hit>, ids: seq<nat>, k: nat, answer: seq<int>)
    requires |hits| == |ids| >= k && Ascending(ids) && answer == Ids(TopK(hits, k))
    requires forall i :: 0 <= i < |ids| ==> hits[i] == Hit(distance(ids[i]), ids[i])
    ensures |answer| == k && forall i :: 0 <= i < k ==> answer[i] in ids
    ensures forall i, j :: 0 <= i < j < k ==>
      || distance(answer[i]) < distance(answer[j])
      || (distance(answer[i]) == distance(answer[j]) && answer[i] < answer[j])
    ensures forall i, g :: 0 <= i < k && g in ids && g !in answer ==>
      || distance(g) > distance(answer[i])
      || (distance(g) == distance(answer[i]) && g > answer[i])
  {
    hide TopK;
    var rows := TopKPicks(hits, k);
    assert forall i :: 0 <= i < k ==> answer[i] == ids[rows[i]] && hits[rows[i]] == Hit(distance(answer[i]), answer[i]);
    forall i, j | 0 <= i < j < k
      ensures distance(answer[i]) < distance(answer[j])
           || (distance(answer[i]) == distance(answer[j]) && answer[i] < answer[j])
    {
    }
    forall i, g | 0 <= i < k && g in ids && g !in answer
      ensures distance(g) > distance(answer[i]) || (distance(g) == distance(answer[i]) && g > answer[i])
    {
      var r :| 0 <= r < |ids| && ids[r] == g;
      assert r !in rows by {
        assert forall m :: 0 <= m < k ==> ids[rows[m]] in answer;
      }
      assert hits[r].distance == distance(g);
    }
  }

  /** The exact answer spelled out: matching rows, a smaller distance first and
      of equal distances the smaller id; no matching row left out is better. */
  lemma ExactMeans(d: Data, spec: Spec, query: Vector, k: nat, result: Option<seq<int>>)
    requires ValidData(d) && IsExact(d, spec, query, k, result)
    ensures result.None? <==> |set g: nat | g < |d.vectors| && Matches(d, spec, g)| < k
    ensures result.Some? ==> |result.value| == k
    ensures result.Some? ==> forall i :: 0 <= i < k ==>
      0 <= result.value[i] < |d.vectors| && Matches(d, spec, result.value[i])
    ensures result.Some? ==> forall i, j :: 0 <= i < j < k ==>
      var x, y := result.value[i], result.value[j];
      var near, far := SquaredL2(query, d.vectors[x]), SquaredL2(query, d.vectors[y]);
      near < far || (near == far && x < y)
    ensures result.Some? ==> forall i, g: nat :: 0 <= i < k && Matches(d, spec, g) && g !in result.value ==>
      var x := result.value[i];
      var kept, left := SquaredL2(query, d.vectors[x]), SquaredL2(query, d.vectors[g]);
      left > kept || (left == kept && g > x)
  {
    hide SquaredL2, TopK;
    var ids :| IsSupport(d, spec, ids) && InData(d, ids) && result == ExactOver(d, query, ids, k);
    SupportSize(d, spec, ids);
    var hits := Hits(query, RowsOf(d, ids));
    var distance := (g: int) => if 0 <= g < |d.vectors| then SquaredL2(query, d.vectors[g]) else 0;
    assert forall i :: 0 <= i < |ids| ==> hits[i] == Hit(distance(ids[i]), ids[i]);
    if |ids| >= k {
      PicksMeans(distance, hits, ids, k, result.value);
    }
  }
}

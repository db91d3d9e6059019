// The audit behind a pass: it counts broken slots, and counts none exactly on
// a canonical graph.

module GraphAudit {
  import opened IdSort
  import opened NeighborUnion
  import opened VamanaPass

  datatype Audit = Audit(duplicates: nat, selves: nat, outOfRange: nat, overflows: nat)

  predicate Clean(a: Audit) {
    a == Audit(0, 0, 0, 0)
  }

  /** One count for each id that equals the one before it in sorted order. */
  method CountDuplicates(ids: seq<int>) returns (count: nat)
    ensures count == 0 <==> NoRepeats(ids)
  {
    SortIntsCorrect(ids);
    var sorted := SortInts(ids);
    SameLength(sorted, ids);
    SortedUniqueByNeighbours(sorted);
    count := 0;
    var j := 1;
    while j < |sorted|
      invariant 1 <= j
      invariant count == 0 <==> forall i :: 0 < i < j && i < |sorted| ==> sorted[i - 1] != sorted[i]
    {
      if sorted[j] == sorted[j - 1] {
        count := count + 1;
      }
      j := j + 1;
    }
    if NoRepeats(sorted) {
      NoRepeatsByContents(sorted, ids);
    }
    if NoRepeats(ids) {
      NoRepeatsByContents(ids, sorted);
    }
  }

  /** The audit is clean exactly on a canonical graph. */
  method AuditGraph(graph: array<seq<int>>, degree: nat) returns (audit: Audit)
    ensures Clean(audit) <==> CanonicalGraph(graph[..], degree)
  {
    audit := Audit(0, 0, 0, 0);
    for v := 0 to graph.Length
      invariant Clean(audit) <==> forall u :: 0 <= u < v ==> CanonicalVertex(graph.Length, degree, u, graph[u])
    {
      var ids := graph[v];
      var selves, outOfRange := 0, 0;
      for j := 0 to |ids|
        invariant selves >= 0 && outOfRange >= 0
        invariant selves == 0 && outOfRange == 0 <==> forall k :: 0 <= k < j ==> Admissible(v, graph.Length, ids[k])
      {
        if ids[j] == v {
          selves := selves + 1;
        }
        if ids[j] < 0 || ids[j] >= graph.Length {
          outOfRange := outOfRange + 1;
        }
      }
      var duplicates := CountDuplicates(ids);
      audit := Audit(audit.duplicates + duplicates, audit.selves + selves, audit.outOfRange + outOfRange,
                     audit.overflows + (if |ids| > degree then 1 else 0));
    }
  }
}

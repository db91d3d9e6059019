// Token postings, the exact leave-one-out support of a query, and the flat
// file of expanded rows.

module LabelSupport {
  import opened Options
  import opened Labels
  import F = FragmentQuery

  // --- Postings ---

  /** The rows below n that have the token, ascending. */
  function RowsWith(d: Data, token: nat, n: nat): seq<nat>
    requires n <= |d.rows|
  {
    if n == 0 then [] else RowsWith(d, token, n - 1) + (if token in d.rows[n - 1] then [n - 1] else [])
  }

  lemma {:induction false} RowsWithShape(d: Data, token: nat, n: nat)
    requires n <= |d.rows|
    ensures S.Ascending(RowsWith(d, token, n))
    ensures forall r: nat :: r in RowsWith(d, token, n) <==> r < n && token in d.rows[r]
  {
    if n > 0 {
      RowsWithShape(d, token, n - 1);
      var rest := RowsWith(d, token, n - 1);
      assert forall i :: 0 <= i < |rest| ==> rest[i] in rest;
    }
  }

  ghost predicate HasPostings(d: Data, postings: seq<seq<nat>>) {
    |postings| == d.tokenLimit && forall t: nat :: t < d.tokenLimit ==> postings[t] == RowsWith(d, t, |d.rows|)
  }

  /** Every row is pushed once on the list of each of its tokens below the limit. */
  method BuildPostings(d: Data) returns (postings: array<seq<nat>>)
    requires ValidData(d)
    ensures fresh(postings) && HasPostings(d, postings[..])
  {
    postings := new seq<nat>[d.tokenLimit](_ => []);
    for row := 0 to |d.rows|
      invariant forall t: nat :: t < d.tokenLimit ==> postings[t] == RowsWith(d, t, row)
    {
      var tokens := d.rows[row];
      for at := 0 to |tokens|
        invariant forall t: nat :: t < d.tokenLimit ==>
          postings[t] == RowsWith(d, t, row) + (if t in tokens[..at] then [row] else [])
      {
        assert tokens[..at + 1] == tokens[..at] + [tokens[at]];
        assert tokens[at] !in tokens[..at];
        if tokens[at] < d.tokenLimit {
          postings[tokens[at]] := postings[tokens[at]] + [row];
        }
      }
      assert tokens[..|tokens|] == tokens;
    }
  }

  // --- Exact support ---

  /** The rows below n that meet the specification, ascending. */
  ghost function MatchingRows(d: Data, spec: Spec, n: nat): seq<nat>
    requires ValidData(d) && ValidSpec(d, spec) && n <= |d.rows|
  {
    if n == 0 then [] else MatchingRows(d, spec, n - 1) + (if Meets(d, spec, n - 1) then [n - 1] else [])
  }

  lemma {:induction false} MatchingRowsShape(d: Data, spec: Spec, n: nat)
    requires ValidData(d) && ValidSpec(d, spec) && n <= |d.rows|
    ensures S.Ascending(MatchingRows(d, spec, n))
    ensures forall r: nat :: r in MatchingRows(d, spec, n) <==> r < n && Meets(d, spec, r)
  {
    if n > 0 {
      MatchingRowsShape(d, spec, n - 1);
      var rest := MatchingRows(d, spec, n - 1);
      assert forall i :: 0 <= i < |rest| ==> rest[i] in rest;
    }
  }

  /** The rows of a token's posting that lie in the interval. */
  method Branch(d: Data, posting: seq<nat>, i: Interval) returns (out: seq<nat>)
    requires ValidData(d) && i.attribute < |d.edges| && S.Ascending(posting)
    requires forall r :: r in posting ==> r < |d.rows|
    ensures S.Ascending(out)
    ensures forall r: nat :: r in out <==> r in posting && IntervalMatches(d, r, i)
  {
    out := [];
    for at := 0 to |posting|
      invariant S.Ascending(out)
      invariant forall r: nat :: r in out <==> r in posting[..at] && r < |d.rows| && IntervalMatches(d, r, i)
    {
      assert posting[..at + 1] == posting[..at] + [posting[at]];
      assert posting[at] in posting;
      assert forall x :: 0 <= x < |out| ==> out[x] in out;
      if IntervalMatches(d, posting[at], i) {
        out := out + [posting[at]];
      }
    }
    assert posting[..|posting|] == posting;
  }

  /** std::set_union of ascending lists. */
  method Union(left: seq<nat>, right: seq<nat>) returns (out: seq<nat>)
    requires S.Ascending(left) && S.Ascending(right)
    ensures S.Ascending(out) && forall g: nat :: g in out <==> g in left || g in right
  {
    out := [];
    var i, j := 0, 0;
    while i < |left| || j < |right|
      invariant i <= |left| && j <= |right| && S.Ascending(out)
      invariant forall g: nat :: g in out <==> g in left[..i] || g in right[..j]
      invariant forall g :: g in out ==> (i < |left| ==> g < left[i]) && (j < |right| ==> g < right[j])
      decreases |left| - i + |right| - j
    {
      assert i < |left| ==> left[..i + 1] == left[..i] + [left[i]];
      assert j < |right| ==> right[..j + 1] == right[..j] + [right[j]];
      assert forall x :: 0 <= x < |out| ==> out[x] in out;
      if j == |right| || (i < |left| && left[i] < right[j]) {
        out := out + [left[i]];
        i := i + 1;
      } else if i == |left| || right[j] < left[i] {
        out := out + [right[j]];
        j := j + 1;
      } else {
        out := out + [left[i]];
        i, j := i + 1, j + 1;
      }
    }
    assert left[..i] == left && right[..j] == right;
  }

  /** std::lower_bound. */
  method LowerBound(s: seq<nat>, x: nat) returns (at: nat)
    requires S.Ascending(s)
    ensures at <= |s|
    ensures forall i :: 0 <= i < at ==> s[i] < x
    ensures forall i :: at <= i < |s| ==> s[i] >= x
  {
    at := 0;
    var length := |s|;
    while length > 0
      invariant 0 <= length && at + length <= |s|
      invariant forall i :: 0 <= i < at ==> s[i] < x
      invariant forall i :: at + length <= i < |s| ==> s[i] >= x
    {
      var half := length / 2;
      if s[at + half] < x {
        at := at + half + 1;
        length := length - half - 1;
      } else {
        length := half;
      }
    }
  }

  /** All rows that meet the specification, read off the postings. */
  method FindSupport(d: Data, postings: seq<seq<nat>>, spec: Spec) returns (support: seq<nat>)
    requires ValidData(d) && ValidSpec(d, spec) && HasPostings(d, postings)
    ensures support == MatchingRows(d, spec, |d.rows|)
  {
    var n := |d.rows|;
    MatchingRowsShape(d, spec, n);
    RowsWithShape(d, spec.primary, n);
    match spec {
      case Equality(p) =>
        support := postings[p];
      case Conjunction(p, q) =>
        RowsWithShape(d, q, n);
        support := F.Intersect(postings[p], postings[q]);
      case Range(p, i) =>
        support := Branch(d, postings[p], i);
      case Dnf2(p, i, q, j) =>
        RowsWithShape(d, q, n);
        var first := Branch(d, postings[p], i);
        var second := Branch(d, postings[q], j);
        support := Union(first, second);
    }
    S.AscendingIsUnique(support, MatchingRows(d, spec, n));
  }

  /** The support without the query's own row: an error unless that row is in it and the size is as expected. */
  method ExactSupport(d: Data, postings: seq<seq<nat>>, spec: Spec, queryId: nat, expected: nat, k: nat)
    returns (result: Option<seq<nat>>)
    requires ValidData(d) && ValidSpec(d, spec) && HasPostings(d, postings)
    ensures var all := MatchingRows(d, spec, |d.rows|);
      result.Some? <==> queryId in all && |all| == expected + 1 && expected >= k
    ensures result.Some? ==> S.Ascending(result.value) && |result.value| == expected
    ensures result.Some? ==> forall r: nat :: r in result.value <==> r < |d.rows| && Meets(d, spec, r) && r != queryId
  {
    MatchingRowsShape(d, spec, |d.rows|);
    var support := FindSupport(d, postings, spec);
    var self := LowerBound(support, queryId);
    if self == |support| || support[self] != queryId {
      return None;
    }
    var rest := support[..self] + support[self + 1..];
    forall r: nat ensures r in rest <==> r in support && r != queryId {
      if r in support && r != queryId {
        var x :| 0 <= x < |support| && support[x] == r;
        assert x < self ==> rest[x] == r;
        assert x > self ==> rest[x - 1] == r;
      }
    }
    if |rest| != expected || |rest| < k {
      return None;
    }
    return Some(rest);
  }

  // --- The flat file of expanded rows ---

  /** Adds up the row sizes: offsets[r] is where row r starts. */
  function OffsetOf(d: Data, r: nat): nat
    requires ValidData(d) && r <= |d.rows|
  {
    if r == 0 then 0 else OffsetOf(d, r - 1) + |Expanded(d, r - 1)|
  }

  lemma {:induction false} OffsetsGrow(d: Data, r: nat, s: nat)
    requires ValidData(d) && r <= s <= |d.rows|
    ensures OffsetOf(d, r) <= OffsetOf(d, s)
  {
    if r < s {
      OffsetsGrow(d, r, s - 1);
    }
  }

  method RowSize(d: Data, row: nat) returns (size: nat)
    requires ValidData(d) && row < |d.rows|
    ensures size == |Expanded(d, row)|
  {
    ExpandedRises(d, row);
    var tokens, valid := 0, 0;
    for at := 0 to |d.rows[row]|
      invariant tokens + |LowTokens(d, d.rows[row][at..])| == |LowTokens(d, d.rows[row])|
    {
      var rest := d.rows[row][at..];
      assert rest[1..] == d.rows[row][at + 1..];
      if d.rows[row][at] < d.tokenLimit {
        tokens := tokens + 1;
      }
    }
    for a := 0 to |d.edges|
      invariant valid + ValidAttributes(d, row, a) == ValidAttributes(d, row, 0)
    {
      BinsAreSmall(d, a, row);
      if d.bins[a][row] >= 0 {
        valid := valid + 1;
      }
    }
    size := tokens * (1 + valid);
  }

  ghost predicate OffsetsTo(d: Data, offsets: seq<nat>, n: nat)
    requires ValidData(d)
  {
    n <= |d.rows| && n < |offsets| && forall r: nat :: r <= n ==> offsets[r] == OffsetOf(d, r)
  }

  lemma OneMoreOffset(d: Data, offsets: seq<nat>, longer: seq<nat>, n: nat)
    requires ValidData(d) && OffsetsTo(d, offsets, n) && n < |d.rows|
    requires |longer| == |offsets| > n + 1 && longer[..n + 1] == offsets[..n + 1]
    requires longer[n + 1] == offsets[n] + |Expanded(d, n)|
    ensures OffsetsTo(d, longer, n + 1)
  {
    hide Expanded, ValidData;
    forall r: nat | r <= n + 1 ensures longer[r] == OffsetOf(d, r) {
      if r <= n {
        assert longer[..n + 1][r] == offsets[..n + 1][r];
      }
    }
  }

  method BuildOffsets(d: Data) returns (offsets: array<nat>)
    requires ValidData(d)
    ensures fresh(offsets) && offsets.Length == |d.rows| + 1
    ensures OffsetsTo(d, offsets[..], |d.rows|)
  {
    hide Expanded, ValidData, OffsetsTo;
    offsets := new nat[|d.rows| + 1](_ => 0);
    NoOffsetsYet(d, offsets[..]);
    for row := 0 to |d.rows|
      invariant OffsetsTo(d, offsets[..], row)
    {
      ghost var before := offsets[..];
      var size := RowSize(d, row);
      offsets[row + 1] := offsets[row] + size;
      OneMoreOffset(d, before, offsets[..], row);
    }
  }

  lemma NoOffsetsYet(d: Data, offsets: seq<nat>)
    requires ValidData(d) && offsets != [] && offsets[0] == 0
    ensures OffsetsTo(d, offsets, 0)
  {
  }

  /** On an ascending row no token below the limit comes behind one that is not. */
  lemma {:induction false} NoLowTokens(d: Data, tokens: seq<nat>)
    requires S.Ascending(tokens) && (tokens != [] ==> tokens[0] >= d.tokenLimit)
    ensures LowTokens(d, tokens) == []
  {
    if tokens != [] {
      NoLowTokens(d, tokens[1..]);
    }
  }

  /** Appends one token's labels at `out`. */
  method WriteTokenLabels(d: Data, row: nat, token: nat, indices: array<nat>, out: nat) returns (end: nat)
    requires ValidData(d) && row < |d.rows| && out + |TokenLabels(d, row, token, 0)| <= indices.Length
    modifies indices
    ensures end == out + |TokenLabels(d, row, token, 0)|
    ensures indices[out..end] == TokenLabels(d, row, token, 0)
    ensures forall i :: 0 <= i < indices.Length && !(out <= i < end) ==> indices[i] == old(indices[i])
  {
    ColumnsHaveEdges(d);
    end := out;
    for a := 0 to |d.edges|
      invariant out <= end <= indices.Length
      invariant indices[out..end] + TokenLabels(d, row, token, a) == TokenLabels(d, row, token, 0)
      invariant forall i :: 0 <= i < indices.Length && !(out <= i < end) ==> indices[i] == old(indices[i])
    {
      BinsAreSmall(d, a, row);
      if d.bins[a][row] >= 0 {
        ghost var written := indices[out..end];
        indices[end] := Cross(d, token, a, d.bins[a][row]);
        assert indices[out..end + 1] == written + [Cross(d, token, a, d.bins[a][row])];
        end := end + 1;
      }
    }
  }

  method WriteTokens(d: Data, tokens: seq<nat>, indices: array<nat>, begin: nat) returns (end: nat)
    requires begin + |LowTokens(d, tokens)| <= indices.Length
    modifies indices
    ensures end == begin + |LowTokens(d, tokens)|
    ensures indices[begin..end] == LowTokens(d, tokens)
    ensures forall i :: 0 <= i < indices.Length && !(begin <= i < end) ==> indices[i] == old(indices[i])
  {
    end := begin;
    for at := 0 to |tokens|
      invariant begin <= end <= indices.Length
      invariant indices[begin..end] + LowTokens(d, tokens[at..]) == LowTokens(d, tokens)
      invariant forall i :: 0 <= i < indices.Length && !(begin <= i < end) ==> indices[i] == old(indices[i])
    {
      assert tokens[at..][1..] == tokens[at + 1..];
      if tokens[at] < d.tokenLimit {
        ghost var written := indices[begin..end];
        indices[end] := tokens[at];
        assert indices[begin..end + 1] == written + [tokens[at]];
        end := end + 1;
      }
    }
    assert tokens[|tokens|..] == [];
  }

  lemma NextToken(d: Data, row: nat, tokens: seq<nat>, at: nat)
    requires ValidData(d) && row < |d.rows| && at < |tokens| && tokens[at] < d.tokenLimit
    ensures CrossLabels(d, row, LowTokens(d, tokens[at..]))
         == TokenLabels(d, row, tokens[at], 0) + CrossLabels(d, row, LowTokens(d, tokens[at + 1..]))
  {
    hide TokenLabels, ValidData;
    assert tokens[at..][1..] == tokens[at + 1..];
    var rest := LowTokens(d, tokens[at + 1..]);
    assert LowTokens(d, tokens[at..]) == [tokens[at]] + rest;
    assert ([tokens[at]] + rest)[1..] == rest;
  }

  /** The labels of the row's tokens, up to the first token that is not below the limit. */
  method WriteCrossLabels(d: Data, row: nat, tokens: seq<nat>, indices: array<nat>, begin: nat) returns (end: nat)
    requires ValidData(d) && row < |d.rows| && S.Ascending(tokens)
    requires begin + |CrossLabels(d, row, LowTokens(d, tokens))| <= indices.Length
    modifies indices
    ensures end == begin + |CrossLabels(d, row, LowTokens(d, tokens))|
    ensures indices[begin..end] == CrossLabels(d, row, LowTokens(d, tokens))
    ensures forall i :: 0 <= i < indices.Length && !(begin <= i < end) ==> indices[i] == old(indices[i])
  {
    hide TokenLabels, ValidData, CrossLabels, LowTokens;
    ghost var all := CrossLabels(d, row, LowTokens(d, tokens));
    var at := 0;
    end := begin;
    assert tokens[0..] == tokens;
    while at < |tokens| && tokens[at] < d.tokenLimit
      invariant at <= |tokens|
      invariant begin <= end <= indices.Length
      invariant indices[begin..end] + CrossLabels(d, row, LowTokens(d, tokens[at..])) == all
      invariant forall i :: 0 <= i < indices.Length && !(begin <= i < end) ==> indices[i] == old(indices[i])
    {
      NextToken(d, row, tokens, at);
      ghost var written := indices[begin..end];
      ghost var labels := TokenLabels(d, row, tokens[at], 0);
      ghost var rest := CrossLabels(d, row, LowTokens(d, tokens[at + 1..]));
      assert written + (labels + rest) == (written + labels) + rest;
      assert |written + labels| <= |all|;
      var next := WriteTokenLabels(d, row, tokens[at], indices, end);
      assert indices[begin..end] == written;
      assert indices[begin..next] == written + labels;
      end := next;
      at := at + 1;
    }
    NoLowTokens(d, tokens[at..]);
    NoCrossLabels(d, row);
    assert indices[begin..end] + [] == indices[begin..end];
  }

  lemma NoCrossLabels(d: Data, row: nat)
    requires ValidData(d) && row < |d.rows|
    ensures CrossLabels(d, row, []) == []
  {
  }

  /** Writes one expanded row at its offset and leaves the rest alone. */
  method WriteRow(d: Data, row: nat, indices: array<nat>, begin: nat) returns (end: nat)
    requires ValidData(d) && row < |d.rows| && begin + |Expanded(d, row)| <= indices.Length
    modifies indices
    ensures end == begin + |Expanded(d, row)|
    ensures indices[begin..end] == Expanded(d, row)
    ensures forall i :: 0 <= i < indices.Length && !(begin <= i < end) ==> indices[i] == old(indices[i])
  {
    hide TokenLabels, CrossLabels, LowTokens;
    var middle := WriteTokens(d, d.rows[row], indices, begin);
    ghost var low := indices[begin..middle];
    end := WriteCrossLabels(d, row, d.rows[row], indices, middle);
    assert indices[begin..middle] == low;
    assert indices[begin..end] == indices[begin..middle] + indices[middle..end];
  }

  /** The expanded rows one after another: row r between its two offsets, strictly ascending. */
  method BuildMetadata(d: Data, expected: nat) returns (ok: bool, offsets: array<nat>, indices: array<nat>)
    requires ValidData(d)
    ensures ok <==> expected == OffsetOf(d, |d.rows|)
    ensures ok ==> OffsetsTo(d, offsets[..], |d.rows|) && indices.Length == expected
    ensures ok ==> forall r: nat :: r < |d.rows| ==> RowWritten(d, indices[..], r)
  {
    hide Expanded, ValidData, OffsetsTo;
    offsets := BuildOffsets(d);
    LastOffset(d, offsets[..], |d.rows|);
    if offsets[|d.rows|] != expected {
      return false, offsets, new nat[0];
    }
    indices := new nat[expected](_ => 0);
    ghost var kept := offsets[..];
    for row := 0 to |d.rows|
      invariant offsets[..] == kept
      invariant forall r: nat :: r < row ==> RowWritten(d, indices[..], r)
    {
      LastOffset(d, offsets[..], row);
      OffsetsGrow(d, row + 1, |d.rows|);
      ghost var before := indices[..];
      var end := WriteRow(d, row, indices, offsets[row]);
      forall r: nat | r < row + 1 ensures RowWritten(d, indices[..], r) {
        if r < row {
          OffsetsGrow(d, r + 1, row);
          KeptRow(d, before, indices[..], r, OffsetOf(d, row));
        }
      }
    }
    ok := true;
  }

  lemma LastOffset(d: Data, offsets: seq<nat>, r: nat)
    requires ValidData(d) && OffsetsTo(d, offsets, |d.rows|) && r <= |d.rows|
    ensures r < |offsets| && offsets[r] == OffsetOf(d, r)
  {
  }

  ghost predicate RowWritten(d: Data, indices: seq<nat>, r: nat)
    requires ValidData(d) && r < |d.rows|
  {
    && OffsetOf(d, r) <= OffsetOf(d, r + 1) <= |indices|
    && indices[OffsetOf(d, r)..OffsetOf(d, r + 1)] == Expanded(d, r)
  }

  lemma KeptRow(d: Data, before: seq<nat>, after: seq<nat>, r: nat, limit: nat)
    requires ValidData(d) && r < |d.rows| && RowWritten(d, before, r)
    requires |before| == |after| && OffsetOf(d, r + 1) <= limit <= |before|
    requires forall i :: 0 <= i < limit ==> after[i] == before[i]
    ensures RowWritten(d, after, r)
  {
    hide Expanded, OffsetOf;
    var lo, hi := OffsetOf(d, r), OffsetOf(d, r + 1);
    assert after[lo..hi] == before[lo..hi];
  }
}

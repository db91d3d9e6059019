// Compiling token and interval predicates into plain label sets: each row is
// expanded with one label for every pair of a token and an endpoint bin.

module Labels {
  import opened Divisibility
  import opened Options
  import opened EndpointBins
  import S = Supports

  /** Rows of ascending token ids, and numeric columns already cut into bins. */
  datatype Data = Data(tokenLimit: nat, rows: seq<seq<nat>>, edges: seq<seq<Edge>>, cells: seq<seq<Cell>>,
                       bins: seq<seq<int>>)

  ghost predicate ValidData(d: Data) {
    && (forall r :: 0 <= r < |d.rows| ==> S.Ascending(d.rows[r]))
    && |d.edges| == |d.cells| == |d.bins|
    && (forall a :: 0 <= a < |d.edges| ==> ValidColumn(d, a))
  }

  ghost predicate ValidColumn(d: Data, a: nat)
    requires |d.edges| == |d.cells| == |d.bins| && a < |d.edges|
  {
    EndpointEdges(d.edges[a]) && |d.cells[a]| == |d.rows| && Binned(d.edges[a], d.cells[a], d.bins[a])
  }

  datatype Interval = Interval(attribute: nat, lo: nat, hi: nat)

  datatype Spec =
    | Equality(primary: nat)
    | Conjunction(primary: nat, secondary: nat)
    | Range(primary: nat, first: Interval)
    | Dnf2(primary: nat, first: Interval, secondary: nat, second: Interval)

  predicate ValidInterval(d: Data, i: Interval) {
    i.attribute < |d.edges| && i.lo < i.hi
  }

  predicate ValidSpec(d: Data, spec: Spec) {
    && spec.primary < d.tokenLimit
    && (spec.Conjunction? || spec.Dnf2? ==> spec.secondary < d.tokenLimit)
    && (spec.Range? || spec.Dnf2? ==> ValidInterval(d, spec.first))
    && (spec.Dnf2? ==> ValidInterval(d, spec.second))
  }

  // --- What a row must satisfy ---

  /** The row has a value and it lies between the interval's endpoint edges. */
  ghost predicate BetweenEdges(d: Data, row: nat, i: Interval)
    requires ValidData(d) && row < |d.rows| && i.attribute < |d.edges|
    requires i.lo < |d.edges[i.attribute]| && i.hi < |d.edges[i.attribute]|
  {
    assert ValidColumn(d, i.attribute);
    var cell, edges := d.cells[i.attribute][row], d.edges[i.attribute];
    cell.Value? && AtMost(edges[i.lo], cell.x) && !AtMost(edges[i.hi], cell.x)
  }

  predicate IntervalMatches(d: Data, row: nat, i: Interval)
    requires ValidData(d) && row < |d.rows| && i.attribute < |d.edges|
  {
    assert ValidColumn(d, i.attribute);
    var bin := d.bins[i.attribute][row];
    bin >= 0 && i.lo <= bin < i.hi
  }

  /** std::binary_search over the row's tokens. */
  method BinarySearch(s: seq<nat>, x: nat) returns (found: bool)
    requires S.Ascending(s)
    ensures found <==> x in s
  {
    var lo, hi := 0, |s|;
    while lo < hi
      invariant 0 <= lo <= hi <= |s|
      invariant forall i :: 0 <= i < lo ==> s[i] < x
      invariant forall i :: hi <= i < |s| ==> s[i] >= x
    {
      var mid := (lo + hi) / 2;
      if s[mid] < x {
        lo := mid + 1;
      } else {
        hi := mid;
      }
    }
    found := lo < |s| && s[lo] == x;
  }

  /** What the specification means for a row. */
  ghost predicate Meets(d: Data, spec: Spec, row: nat)
    requires ValidData(d) && ValidSpec(d, spec)
  {
    row < |d.rows| &&
    match spec
    case Equality(p) => p in d.rows[row]
    case Conjunction(p, q) => p in d.rows[row] && q in d.rows[row]
    case Range(p, i) => p in d.rows[row] && IntervalMatches(d, row, i)
    case Dnf2(p, i, q, j) =>
      (p in d.rows[row] && IntervalMatches(d, row, i)) || (q in d.rows[row] && IntervalMatches(d, row, j))
  }

  method Matches(d: Data, spec: Spec, row: nat) returns (matches: bool)
    requires ValidData(d) && ValidSpec(d, spec)
    ensures matches <==> Meets(d, spec, row)
  {
    if row >= |d.rows| {
      return false;
    }
    var p := BinarySearch(d.rows[row], spec.primary);
    match spec {
      case Equality(_) => return p;
      case Conjunction(_, q) =>
        var other := BinarySearch(d.rows[row], q);
        return p && other;
      case Range(_, i) => return p && IntervalMatches(d, row, i);
      case Dnf2(_, i, q, j) =>
        var other := BinarySearch(d.rows[row], q);
        return (p && IntervalMatches(d, row, i)) || (other && IntervalMatches(d, row, j));
    }
  }

  /** Bin membership is the interval test on the value itself. */
  lemma IntervalMeansEdges(d: Data, row: nat, i: Interval)
    requires ValidData(d) && row < |d.rows| && i.attribute < |d.edges|
    requires i.lo < |d.edges[i.attribute]| && i.hi < |d.edges[i.attribute]|
    ensures IntervalMatches(d, row, i) <==> BetweenEdges(d, row, i)
  {
    assert ValidColumn(d, i.attribute);
    if d.cells[i.attribute][row].Value? {
      BinsAreIntervals(d.edges[i.attribute], d.cells[i.attribute][row].x, d.bins[i.attribute][row], i.lo, i.hi);
    }
  }

  // --- Cross labels ---

  function BinCount(d: Data, a: nat): nat
    requires a < |d.edges| && |d.edges[a]| >= 1
  {
    |d.edges[a]| - 1
  }

  function BinOffset(d: Data, a: nat): nat
    requires a <= |d.edges| && forall k :: 0 <= k < |d.edges| ==> |d.edges[k]| >= 1
  {
    if a == 0 then 0 else BinOffset(d, a - 1) + BinCount(d, a - 1)
  }

  predicate HasEdges(d: Data) {
    forall k :: 0 <= k < |d.edges| ==> |d.edges[k]| >= 1
  }

  function TotalBins(d: Data): nat
    requires HasEdges(d)
  {
    BinOffset(d, |d.edges|)
  }

  /** The label of a token together with a bin of an attribute. */
  function Cross(d: Data, token: nat, a: nat, bin: nat): nat
    requires HasEdges(d) && a < |d.edges|
  {
    d.tokenLimit + token * TotalBins(d) + BinOffset(d, a) + bin
  }

  lemma {:induction false} OffsetsRise(d: Data, a: nat, b: nat)
    requires HasEdges(d) && a < b <= |d.edges|
    ensures BinOffset(d, a) + BinCount(d, a) <= BinOffset(d, b)
  {
    if b > a + 1 {
      OffsetsRise(d, a, b - 1);
    }
  }

  /** Different token, attribute or bin: different label. */
  lemma CrossIsInjective(d: Data, t: nat, a: nat, b: nat, u: nat, c: nat, e: nat)
    requires HasEdges(d) && a < |d.edges| && c < |d.edges| && b < BinCount(d, a) && e < BinCount(d, c)
    requires Cross(d, t, a, b) == Cross(d, u, c, e)
    ensures t == u && a == c && b == e
  {
    OffsetsRise(d, a, |d.edges|);
    OffsetsRise(d, c, |d.edges|);
    Digits(TotalBins(d), t, BinOffset(d, a) + b, u, BinOffset(d, c) + e);
    if a < c {
      OffsetsRise(d, a, c);
    } else if c < a {
      OffsetsRise(d, c, a);
    }
  }

  // --- Expanded rows ---

  /** A cut column's bins are bins of its edges. */
  lemma BinsAreSmall(d: Data, a: nat, row: nat)
    requires ValidData(d) && a < |d.edges| && row < |d.rows|
    ensures HasEdges(d) && row < |d.bins[a]| && -1 <= d.bins[a][row] < BinCount(d, a)
  {
    forall k | 0 <= k < |d.edges| ensures |d.edges[k]| >= 1 {
      assert ValidColumn(d, k);
    }
    assert ValidColumn(d, a);
  }

  lemma ColumnsHaveEdges(d: Data)
    requires ValidData(d)
    ensures HasEdges(d)
  {
    forall k | 0 <= k < |d.edges| ensures |d.edges[k]| >= 1 {
      assert ValidColumn(d, k);
    }
  }

  function LowTokens(d: Data, tokens: seq<nat>): seq<nat> {
    if tokens == [] then []
    else if tokens[0] < d.tokenLimit then [tokens[0]] + LowTokens(d, tokens[1..])
    else LowTokens(d, tokens[1..])
  }

  /** One token's labels over the attributes from a on. */
  function TokenLabels(d: Data, row: nat, token: nat, a: nat): seq<nat>
    requires ValidData(d) && row < |d.rows| && a <= |d.edges|
    decreases |d.edges| - a
  {
    if a == |d.edges| then []
    else
      BinsAreSmall(d, a, row);
      var bin := d.bins[a][row];
      (if bin < 0 then [] else [Cross(d, token, a, bin)]) + TokenLabels(d, row, token, a + 1)
  }

  function CrossLabels(d: Data, row: nat, tokens: seq<nat>): seq<nat>
    requires ValidData(d) && row < |d.rows|
    decreases tokens
  {
    if tokens == [] then [] else TokenLabels(d, row, tokens[0], 0) + CrossLabels(d, row, tokens[1..])
  }

  function Expanded(d: Data, row: nat): seq<nat>
    requires ValidData(d) && row < |d.rows|
  {
    var tokens := LowTokens(d, d.rows[row]);
    tokens + CrossLabels(d, row, tokens)
  }

  /** How many attributes of a row have a value, counted from a on. */
  function ValidAttributes(d: Data, row: nat, a: nat): nat
    requires ValidData(d) && row < |d.rows| && a <= |d.edges|
    decreases |d.edges| - a
  {
    if a == |d.edges| then 0
    else
      BinsAreSmall(d, a, row);
      (if d.bins[a][row] >= 0 then 1 else 0) + ValidAttributes(d, row, a + 1)
  }

  lemma {:induction false} TokenLabelsShape(d: Data, row: nat, token: nat, a: nat)
    requires ValidData(d) && row < |d.rows| && a <= |d.edges|
    ensures HasEdges(d)
    ensures S.Ascending(TokenLabels(d, row, token, a))
    ensures |TokenLabels(d, row, token, a)| == ValidAttributes(d, row, a)
    ensures forall x :: x in TokenLabels(d, row, token, a) ==>
      d.tokenLimit + token * TotalBins(d) + BinOffset(d, a) <= x < d.tokenLimit + token * TotalBins(d) + TotalBins(d)
    decreases |d.edges| - a
  {
    ColumnsHaveEdges(d);
    if a < |d.edges| {
      BinsAreSmall(d, a, row);
      TokenLabelsShape(d, row, token, a + 1);
      OffsetsRise(d, a, |d.edges|);
      var rest := TokenLabels(d, row, token, a + 1);
      assert forall i :: 0 <= i < |rest| ==> rest[i] in rest;
    }
  }

  /** The labels of a row's tokens rise, token after token. */
  lemma {:induction false} CrossLabelsShape(d: Data, row: nat, tokens: seq<nat>)
    requires ValidData(d) && row < |d.rows| && S.Ascending(tokens)
    ensures HasEdges(d)
    ensures S.Ascending(CrossLabels(d, row, tokens))
    ensures |CrossLabels(d, row, tokens)| == |tokens| * ValidAttributes(d, row, 0)
    ensures tokens != [] ==> forall x :: x in CrossLabels(d, row, tokens) ==>
      d.tokenLimit + tokens[0] * TotalBins(d) <= x
  {
    hide TokenLabels, ValidAttributes, BinOffset;
    ColumnsHaveEdges(d);
    if tokens != [] {
      var first, rest := TokenLabels(d, row, tokens[0], 0), CrossLabels(d, row, tokens[1..]);
      TokenLabelsShape(d, row, tokens[0], 0);
      CrossLabelsShape(d, row, tokens[1..]);
      if |tokens| > 1 {
        NextMultiple(TotalBins(d), tokens[0], tokens[1]);
      }
      assert forall i :: 0 <= i < |first| ==> first[i] in first;
      assert forall i :: 0 <= i < |rest| ==> rest[i] in rest;
      var v := ValidAttributes(d, row, 0);
      assert |tokens| * v == v + (|tokens| - 1) * v;
    }
  }

  lemma {:induction false} LowTokensShape(d: Data, tokens: seq<nat>)
    requires S.Ascending(tokens)
    ensures S.Ascending(LowTokens(d, tokens))
    ensures forall t :: t in LowTokens(d, tokens) <==> t in tokens && t < d.tokenLimit
  {
    if tokens != [] {
      LowTokensShape(d, tokens[1..]);
      var rest := LowTokens(d, tokens[1..]);
      assert forall i :: 0 <= i < |rest| ==> rest[i] in rest;
      assert tokens == [tokens[0]] + tokens[1..];
    }
  }

  /** An expanded row is strictly ascending, and as long as its tokens times one more than its values. */
  lemma ExpandedRises(d: Data, row: nat)
    requires ValidData(d) && row < |d.rows|
    ensures S.Ascending(Expanded(d, row))
    ensures |Expanded(d, row)| == |LowTokens(d, d.rows[row])| * (1 + ValidAttributes(d, row, 0))
  {
    hide CrossLabels, ValidAttributes;
    var tokens := LowTokens(d, d.rows[row]);
    LowTokensShape(d, d.rows[row]);
    CrossLabelsShape(d, row, tokens);
    var cross := CrossLabels(d, row, tokens);
    forall x | x in cross ensures d.tokenLimit <= x {
      CrossLabelsAreHigh(d, row, tokens, x);
    }
    AscendingParts(tokens, cross, d.tokenLimit);
    OneMore(|tokens|, ValidAttributes(d, row, 0));
  }

  lemma OneMore(n: nat, v: nat)
    ensures n + n * v == n * (1 + v)
  {
  }

  lemma AscendingParts(a: seq<nat>, b: seq<nat>, m: nat)
    requires S.Ascending(a) && S.Ascending(b)
    requires (forall x :: x in a ==> x < m) && (forall x :: x in b ==> m <= x)
    ensures S.Ascending(a + b)
  {
    assert forall i :: 0 <= i < |a| ==> a[i] in a;
    assert forall i :: 0 <= i < |b| ==> b[i] in b;
  }

  // --- Which labels a row has ---

  lemma {:induction false} InTokenLabels(d: Data, row: nat, token: nat, a: nat, t: nat, c: nat, bin: nat)
    requires ValidData(d) && row < |d.rows| && a <= |d.edges| && c < |d.edges|
    requires HasEdges(d) && bin < BinCount(d, c)
    ensures Cross(d, t, c, bin) in TokenLabels(d, row, token, a) <==> t == token && a <= c && BinIs(d, row, c, bin)
    decreases |d.edges| - a
  {
    if a < |d.edges| {
      BinsAreSmall(d, a, row);
      InTokenLabels(d, row, token, a + 1, t, c, bin);
      var own := d.bins[a][row];
      if own >= 0 && Cross(d, t, c, bin) == Cross(d, token, a, own) {
        CrossIsInjective(d, t, c, bin, token, a, own);
      }
    }
  }

  predicate BinIs(d: Data, row: nat, a: nat, bin: nat)
    requires ValidData(d) && row < |d.rows| && a < |d.edges|
  {
    BinsAreSmall(d, a, row);
    d.bins[a][row] == bin
  }

  lemma {:induction false} InCrossLabels(d: Data, row: nat, tokens: seq<nat>, t: nat, c: nat, bin: nat)
    requires ValidData(d) && row < |d.rows| && c < |d.edges|
    requires HasEdges(d) && bin < BinCount(d, c)
    ensures Cross(d, t, c, bin) in CrossLabels(d, row, tokens) <==> t in tokens && BinIs(d, row, c, bin)
  {
    if tokens != [] {
      InTokenLabels(d, row, tokens[0], 0, t, c, bin);
      InCrossLabels(d, row, tokens[1..], t, c, bin);
    }
  }

  lemma {:induction false} CrossLabelsAreHigh(d: Data, row: nat, tokens: seq<nat>, x: nat)
    requires ValidData(d) && row < |d.rows| && x in CrossLabels(d, row, tokens)
    ensures x >= d.tokenLimit
  {
    TokenLabelsShape(d, row, tokens[0], 0);
    if x !in TokenLabels(d, row, tokens[0], 0) {
      CrossLabelsAreHigh(d, row, tokens[1..], x);
    }
  }

  /** A token label is in the expanded row exactly when the row has the token. */
  lemma TokenInExpanded(d: Data, row: nat, token: nat)
    requires ValidData(d) && row < |d.rows| && token < d.tokenLimit
    ensures token in Expanded(d, row) <==> token in d.rows[row]
  {
    var tokens := LowTokens(d, d.rows[row]);
    LowTokensShape(d, d.rows[row]);
    if token in CrossLabels(d, row, tokens) {
      CrossLabelsAreHigh(d, row, tokens, token);
    }
  }

  /** A cross label is in the expanded row exactly when the row has the token and the bin. */
  lemma CrossInExpanded(d: Data, row: nat, token: nat, a: nat, bin: nat)
    requires ValidData(d) && row < |d.rows| && token < d.tokenLimit && a < |d.edges|
    requires HasEdges(d) && bin < BinCount(d, a)
    ensures Cross(d, token, a, bin) in Expanded(d, row) <==> token in d.rows[row] && BinIs(d, row, a, bin)
  {
    var tokens := LowTokens(d, d.rows[row]);
    LowTokensShape(d, d.rows[row]);
    InCrossLabels(d, row, tokens, token, a, bin);
  }

  // --- Query filters ---

  /** A row passes when it has all labels, or any label. */
  datatype QueryFilter = QueryFilter(labels: set<nat>, all: bool)

  predicate Passes(filter: QueryFilter, row: seq<nat>) {
    if filter.all then forall l :: l in filter.labels ==> l in row else exists l :: l in filter.labels && l in row
  }

  /** The cross labels of an interval: an error when it leaves the endpoint library. */
  method IntervalLabels(d: Data, token: nat, i: Interval, labels: set<nat>) returns (more: Option<set<nat>>)
    requires ValidData(d) && HasEdges(d) && ValidInterval(d, i)
    ensures more.Some? <==> i.hi <= BinCount(d, i.attribute)
    ensures more.Some? ==> more.value == labels + IntervalSet(d, token, i)
  {
    if i.hi > BinCount(d, i.attribute) {
      return None;
    }
    var out := labels;
    var bin := i.lo;
    while bin < i.hi
      invariant i.lo <= bin <= i.hi
      invariant out == labels + set b | i.lo <= b < bin :: Cross(d, token, i.attribute, b)
    {
      out := out + {Cross(d, token, i.attribute, bin)};
      bin := bin + 1;
    }
    return Some(out);
  }

  ghost function IntervalSet(d: Data, token: nat, i: Interval): set<nat>
    requires HasEdges(d) && i.attribute < |d.edges|
  {
    set b | i.lo <= b < i.hi :: Cross(d, token, i.attribute, b)
  }

  predicate InLibrary(d: Data, i: Interval)
    requires i.attribute < |d.edges| && HasEdges(d)
  {
    i.hi <= BinCount(d, i.attribute)
  }

  ghost predicate Compilable(d: Data, spec: Spec)
    requires ValidSpec(d, spec) && HasEdges(d)
  {
    && (spec.Range? || spec.Dnf2? ==> InLibrary(d, spec.first))
    && (spec.Dnf2? ==> InLibrary(d, spec.second))
  }

  /** The interval's label set hits a row exactly when the row has the token and lies in the interval. */
  lemma IntervalSetHits(d: Data, row: nat, token: nat, i: Interval)
    requires ValidData(d) && HasEdges(d) && row < |d.rows| && token < d.tokenLimit
    requires i.attribute < |d.edges| && InLibrary(d, i)
    ensures (exists l :: l in IntervalSet(d, token, i) && l in Expanded(d, row))
        <==> (token in d.rows[row] && IntervalMatches(d, row, i))
  {
    BinsAreSmall(d, i.attribute, row);
    var bin := d.bins[i.attribute][row];
    if token in d.rows[row] && IntervalMatches(d, row, i) {
      CrossInExpanded(d, row, token, i.attribute, bin);
      assert Cross(d, token, i.attribute, bin) in IntervalSet(d, token, i);
    }
    if l :| l in IntervalSet(d, token, i) && l in Expanded(d, row) {
      var b :| i.lo <= b < i.hi && l == Cross(d, token, i.attribute, b);
      CrossInExpanded(d, row, token, i.attribute, b);
    }
  }

  /** Compiling a specification keeps its meaning on every row. */
  method Compile(d: Data, spec: Spec) returns (filter: Option<QueryFilter>)
    requires ValidData(d) && ValidSpec(d, spec) && HasEdges(d)
    ensures filter.Some? <==> Compilable(d, spec)
    ensures filter.Some? ==> forall row: nat :: row < |d.rows| ==>
      (Passes(filter.value, Expanded(d, row)) <==> Meets(d, spec, row))
  {
    match spec {
      case Equality(p) =>
        forall row: nat | row < |d.rows| ensures p in Expanded(d, row) <==> p in d.rows[row] {
          TokenInExpanded(d, row, p);
        }
        return Some(QueryFilter({p}, true));
      case Conjunction(p, q) =>
        forall row: nat | row < |d.rows|
          ensures (p in Expanded(d, row) <==> p in d.rows[row]) && (q in Expanded(d, row) <==> q in d.rows[row])
        {
          TokenInExpanded(d, row, p);
          TokenInExpanded(d, row, q);
        }
        return Some(QueryFilter({p, q}, true));
      case Range(p, i) =>
        var labels := IntervalLabels(d, p, i, {});
        if labels.None? { return None; }
        forall row: nat | row < |d.rows|
          ensures Passes(QueryFilter(labels.value, false), Expanded(d, row)) <==> Meets(d, spec, row)
        {
          IntervalSetHits(d, row, p, i);
          assert labels.value == IntervalSet(d, p, i);
        }
        return Some(QueryFilter(labels.value, false));
      case Dnf2(p, i, q, j) =>
        var first := IntervalLabels(d, p, i, {});
        if first.None? { return None; }
        var labels := IntervalLabels(d, q, j, first.value);
        if labels.None? { return None; }
        forall row: nat | row < |d.rows|
          ensures Passes(QueryFilter(labels.value, false), Expanded(d, row)) <==> Meets(d, spec, row)
        {
          IntervalSetHits(d, row, p, i);
          IntervalSetHits(d, row, q, j);
          assert labels.value == IntervalSet(d, p, i) + IntervalSet(d, q, j);
        }
        return Some(QueryFilter(labels.value, false));
    }
  }
}

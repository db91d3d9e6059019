// Postings in either id space: the ranked search that visits every row once,
// and the in-place compilation of a posting to physical positions.

module Postings {
  import opened Options
  import opened Ranking
  import opened CellLayout
  import opened IdSort
  import opened PairMajor
  import opened TopKScan

  datatype Posting = Posting(values: seq<nat>, space: IdSpace)

  predicate PostingsValid(postings: seq<Posting>, rows: nat) {
    forall p :: 0 <= p < |postings| ==> AllBelow(postings[p].values, rows)
  }

  predicate AllBelow(values: seq<nat>, rows: nat) {
    forall i :: 0 <= i < |values| ==> values[i] < rows
  }

  /** The global id a posting entry names. */
  function IdOf<V>(l: Layout<V>, space: IdSpace, value: nat): nat
    requires value < |l.posToGlobal|
  {
    if space == GlobalId then value else l.posToGlobal[value]
  }

  ghost predicate Named<V>(l: Layout<V>, posting: Posting, n: nat, g: nat) {
    exists i :: 0 <= i < n <= |posting.values| && posting.values[i] < |l.posToGlobal| &&
      g == IdOf(l, posting.space, posting.values[i])
  }

  ghost predicate NamedBy<V>(l: Layout<V>, postings: seq<Posting>, p: nat, g: nat) {
    p < |postings| && Named(l, postings[p], |postings[p].values|, g)
  }

  ghost predicate NamedInFirst<V>(l: Layout<V>, postings: seq<Posting>, n: nat, g: nat) {
    exists p: nat :: p < n && NamedBy(l, postings, p, g)
  }

  ghost function IdsIn<V>(l: Layout<V>, postings: seq<Posting>): iset<nat> {
    iset g: nat | NamedInFirst(l, postings, |postings|, g)
  }

  /** The seen flags are exactly the ids searched so far. */
  ghost predicate Flags(seen: seq<bool>, ids: seq<nat>) {
    forall g: nat :: g in ids <==> g < |seen| && seen[g]
  }

  method SearchPosting<V>(queue: TopKQueue, l: Layout<V>, distance: V -> int, ghost k: nat, ghost before: seq<nat>,
                          posting: Posting, seen: array<bool>) returns (ok: bool, ghost ids: seq<nat>)
    requires k > 0 && Searching(queue, l, distance, k, before) && Usable(l, |l.vectors|)
    requires seen.Length == |l.vectors| && Flags(seen[..], before)
    modifies queue, queue.heap, seen
    ensures ok <==> AllBelow(posting.values, |l.vectors|)
    ensures ok ==> Searching(queue, l, distance, k, ids) && Flags(seen[..], ids)
    ensures ok ==> forall g: nat :: g in ids <==> g in before || Named(l, posting, |posting.values|, g)
  {
    hide Searching;
    ids := before;
    for index := 0 to |posting.values|
      invariant forall i :: 0 <= i < index ==> posting.values[i] < |l.vectors|
      invariant Searching(queue, l, distance, k, ids) && Flags(seen[..], ids)
      invariant forall g: nat :: g in ids <==> g in before || Named(l, posting, index, g)
    {
      var value := posting.values[index];
      if value >= |l.vectors| {
        return false, ids;
      }
      var g := IdOf(l, posting.space, value);
      var position := if posting.space == GlobalId then l.globalToPos[value] else value;
      NamedStep(l, posting, index);
      if !seen[g] {
        seen[g] := true;
        Visit(queue, l, distance, k, ids, position, g);
        ids := ids + [g];
      }
    }
    ok := true;
  }

  lemma NamedStep<V>(l: Layout<V>, posting: Posting, n: nat)
    requires n < |posting.values| && posting.values[n] < |l.posToGlobal|
    ensures forall g: nat ::
      Named(l, posting, n + 1, g) <==> (Named(l, posting, n, g) || g == IdOf(l, posting.space, posting.values[n]))
  {
    forall g: nat | Named(l, posting, n, g) ensures Named(l, posting, n + 1, g) {
      var i :| 0 <= i < n <= |posting.values| && posting.values[i] < |l.posToGlobal| &&
        g == IdOf(l, posting.space, posting.values[i]);
      assert 0 <= i < n + 1;
    }
    assert Named(l, posting, n + 1, IdOf(l, posting.space, posting.values[n]));
  }

  lemma NamedInNone<V>(l: Layout<V>, postings: seq<Posting>)
    ensures forall g: nat :: !NamedInFirst(l, postings, 0, g)
    ensures Flags(seq(|l.vectors|, _ => false), [])
  {
  }

  lemma NamedInNext<V>(l: Layout<V>, postings: seq<Posting>, n: nat)
    requires n < |postings|
    ensures forall g: nat :: NamedInFirst(l, postings, n + 1, g) <==>
      (NamedInFirst(l, postings, n, g) || Named(l, postings[n], |postings[n].values|, g))
  {
    forall g: nat
      ensures NamedInFirst(l, postings, n + 1, g) <==>
        (NamedInFirst(l, postings, n, g) || Named(l, postings[n], |postings[n].values|, g))
    {
      if NamedInFirst(l, postings, n, g) {
        var p: nat :| p < n && NamedBy(l, postings, p, g);
        assert p < n + 1;
      }
      assert NamedBy(l, postings, n, g) <==> Named(l, postings[n], |postings[n].values|, g);
    }
  }

  /** All postings in order, each row ranked the first time it is named. */
  method SearchAll<V>(queue: TopKQueue, l: Layout<V>, distance: V -> int, ghost k: nat, postings: seq<Posting>,
                      seen: array<bool>) returns (ok: bool, ghost ids: seq<nat>)
    requires k > 0 && Searching(queue, l, distance, k, []) && Usable(l, |l.vectors|)
    requires seen.Length == |l.vectors| && Flags(seen[..], [])
    modifies queue, queue.heap, seen
    ensures ok <==> PostingsValid(postings, |l.vectors|)
    ensures ok ==> Searching(queue, l, distance, k, ids)
    ensures ok ==> forall g: nat :: g in ids <==> NamedInFirst(l, postings, |postings|, g)
  {
    hide Searching, Named, Flags, NamedInFirst, Usable, AllBelow;
    NamedInNone(l, postings);
    ids := [];
    for p := 0 to |postings|
      invariant forall r :: 0 <= r < p ==> AllBelow(postings[r].values, |l.vectors|)
      invariant Searching(queue, l, distance, k, ids) && Flags(seen[..], ids)
      invariant forall g: nat :: g in ids <==> NamedInFirst(l, postings, p, g)
    {
      ok, ids := SearchPosting(queue, l, distance, k, ids, postings[p], seen);
      if !ok {
        return;
      }
      NamedInNext(l, postings, p);
    }
    ok := true;
  }

  /** exact_top_k_postings: any mix of id spaces, every row ranked once. */
  method ExactTopKPostings<V>(l: Layout<V>, postings: seq<Posting>, k: nat, distance: V -> int)
    returns (result: Option<seq<Hit>>)
    requires Usable(l, |l.vectors|)
    ensures k == 0 ==> result == Some([])
    ensures k > 0 ==> (result.Some? <==> PostingsValid(postings, |l.vectors|))
    ensures k > 0 && result.Some? ==> Ranks(l, distance, IdsIn(l, postings), k, result.value)
  {
    if k == 0 {
      return Some([]);
    }
    hide Searching, Ranks, Named, Flags, NamedInFirst, Usable, PostingsValid;
    NamedInNone(l, postings);
    var queue := StartSearch(l, distance, k);
    var seen := new bool[|l.vectors|](_ => false);
    assert seen[..] == seq(|l.vectors|, _ => false);
    var ok;
    ghost var ids: seq<nat>;
    ok, ids := SearchAll(queue, l, distance, k, postings, seen);
    if !ok {
      return None;
    }
    var ranked := FinishSearch(queue, l, distance, k, ids, IdsIn(l, postings));
    result := Some(ranked);
  }

  /** Posting p names the row g: by its id, or by the position it is stored at. */
  ghost predicate Names<V>(l: Layout<V>, postings: seq<Posting>, p: nat, g: int) {
    p < |postings| && exists i ::
      && 0 <= i < |postings[p].values|
      && (postings[p].space == GlobalId ==> postings[p].values[i] == g < |l.vectors|)
      && (postings[p].space != GlobalId ==>
           postings[p].values[i] < |l.posToGlobal| && l.posToGlobal[postings[p].values[i]] == g)
  }

  /** That answer spelled out: rows that some posting names, with their own
      distances, a smaller distance first and of equal distances the smaller id; a
      named row is left out only when k others are better. */
  lemma PostingsRanked<V>(l: Layout<V>, postings: seq<Posting>, distance: V -> int, k: nat, ranked: seq<Hit>)
    requires Usable(l, |l.vectors|) && Ranks(l, distance, IdsIn(l, postings), k, ranked)
    ensures |ranked| <= k
    ensures forall h :: h in ranked ==>
      && 0 <= h.id < |l.vectors| && h.distance == distance(l.vectors[l.globalToPos[h.id]])
      && exists p: nat :: Names(l, postings, p, h.id)
    ensures forall i, j :: 0 <= i < j < |ranked| ==>
      || ranked[i].distance < ranked[j].distance
      || (ranked[i].distance == ranked[j].distance && ranked[i].id < ranked[j].id)
    ensures forall p: nat, g: nat :: Names(l, postings, p, g) && (forall h :: h in ranked ==> h.id != g) ==>
      |ranked| == k && forall h :: h in ranked ==>
        var d := distance(l.vectors[l.globalToPos[g]]); d > h.distance || (d == h.distance && g > h.id)
  {
    hide Ranks;
    var rows := IdsIn(l, postings);
    RankingMeans(l, distance, rows, k, ranked);
    forall h | h in ranked
      ensures exists p: nat :: Names(l, postings, p, h.id)
    {
      var p: nat :| p < |postings| && NamedBy(l, postings, p, h.id);
      assert Names(l, postings, p, h.id);
    }
    forall p: nat, g: nat | Names(l, postings, p, g) ensures g in rows {
      var i :|
        && 0 <= i < |postings[p].values|
        && (postings[p].space == GlobalId ==> postings[p].values[i] == g < |l.vectors|)
        && (postings[p].space != GlobalId ==>
             postings[p].values[i] < |l.posToGlobal| && l.posToGlobal[postings[p].values[i]] == g);
      assert g == IdOf(l, postings[p].space, postings[p].values[i]);
      assert NamedBy(l, postings, p, g);
    }
  }

  // --- In-place compilation ---

  datatype Receipt = Receipt(rows: nat, allIdsValid: bool, outputSorted: bool, outputUnique: bool,
                             exactRoundTrip: bool) {
    predicate Passed() {
      allIdsValid && outputSorted && outputUnique && exactRoundTrip
    }
  }

  function Compiled<V>(l: Layout<V>, values: seq<nat>): (t: seq<nat>)
    ensures |t| == |values|
  {
    seq(|values|, i requires 0 <= i < |values| =>
      if values[i] < |l.globalToPos| then l.globalToPos[values[i]] else values[i])
  }

  /** Global ids read back at a list of positions. */
  function ReadBack<V>(l: Layout<V>, positions: seq<nat>): (ids: seq<nat>)
    requires AllBelow(positions, |l.posToGlobal|)
    ensures |ids| == |positions|
  {
    seq(|positions|, i requires 0 <= i < |positions| => l.posToGlobal[positions[i]])
  }

  lemma ReadBackContents<V>(l: Layout<V>, s: seq<nat>, t: seq<nat>)
    requires AllBelow(s, |l.posToGlobal|) && AllBelow(t, |l.posToGlobal|) && multiset(s) == multiset(t)
    ensures multiset(ReadBack(l, s)) == multiset(ReadBack(l, t))
  {
    var f := (p: nat) => if p < |l.posToGlobal| then l.posToGlobal[p] else 0;
    MapContents(f, s, t);
    assert ReadBack(l, s) == Map(f, s) && ReadBack(l, t) == Map(f, t);
  }

  /** Sorting the compiled positions loses nothing: they read back to the posting. */
  lemma CompiledRoundTrip<V>(l: Layout<V>, original: seq<nat>)
    requires Usable(l, |l.vectors|) && AllBelow(original, |l.vectors|)
    ensures var sorted := SortNats(Compiled(l, original));
      && AllBelow(sorted, |l.vectors|)
      && multiset(ReadBack(l, sorted)) == multiset(original)
      && (NoRepeats(sorted) <==> NoRepeats(original))
  {
    var compiled := Compiled(l, original);
    var sorted := SortNats(compiled);
    SortIntsCorrect(compiled);
    forall i | 0 <= i < |sorted| ensures sorted[i] < |l.vectors| {
      assert sorted[i] in multiset(compiled);
    }
    assert ReadBack(l, compiled) == original;
    ReadBackContents(l, sorted, compiled);
    if NoRepeats(original) {
      assert forall i :: 0 <= i < |compiled| ==> l.posToGlobal[compiled[i]] == original[i];
      NoRepeatsByContents(compiled, sorted);
    }
    if NoRepeats(sorted) {
      NoRepeatsByContents(sorted, compiled);
      assert forall i :: 0 <= i < |original| ==> compiled[i] == l.globalToPos[original[i]];
    }
  }

  /** compile_global_posting_to_positions_in_place: entries are replaced one by
      one; only a fully valid posting is then sorted. */
  method CompileInPlace<V>(l: Layout<V>, values: array<nat>) returns (receipt: Receipt)
    requires Usable(l, |l.vectors|)
    modifies values
    ensures receipt.allIdsValid <==> AllBelow(old(values[..]), |l.vectors|)
    ensures var compiled := Compiled(l, old(values[..]));
      values[..] == if receipt.allIdsValid then SortNats(compiled) else compiled
    ensures receipt.Passed() <==> AllBelow(old(values[..]), |l.vectors|) && NoRepeats(old(values[..]))
  {
    ghost var original := values[..];
    var before := values[..];
    var valid := true;
    for i := 0 to values.Length
      invariant valid <==> AllBelow(original[..i], |l.vectors|)
      invariant forall j :: 0 <= j < i ==> values[j] == Compiled(l, original)[j]
      invariant forall j :: i <= j < values.Length ==> values[j] == original[j]
    {
      assert original[..i + 1] == original[..i] + [original[i]];
      if values[i] >= |l.globalToPos| {
        valid := false;
      } else {
        values[i] := l.globalToPos[values[i]];
      }
    }
    assert original[..values.Length] == original;
    assert values[..] == Compiled(l, original);
    if !valid {
      return Receipt(values.Length, false, false, false, false);
    }
    var sorted := SortNats(values[..]);
    SortIntsCorrect(values[..]);
    assert |multiset(sorted)| == |sorted| && |multiset(values[..])| == values.Length;
    forall i | 0 <= i < values.Length {
      values[i] := sorted[i];
    }
    assert values[..] == sorted;
    CompiledRoundTrip(l, original);
    SortedUniqueByNeighbours(sorted);
    var unique := forall i :: 0 < i < |sorted| ==> sorted[i - 1] != sorted[i];
    var roundTrip := ReadBack(l, sorted);
    SortIntsCorrect(roundTrip);
    SortIntsCorrect(before);
    IntsSortedUnique(SortNats(roundTrip), SortNats(before));
    return Receipt(values.Length, true, true, unique, SortNats(roundTrip) == SortNats(before));
  }

  lemma NamedIsMember<V>(l: Layout<V>, posting: Posting, g: nat)
    requires AllBelow(posting.values, |l.posToGlobal|)
    ensures Named(l, posting, |posting.values|, g) <==>
      g in if posting.space == GlobalId then posting.values else ReadBack(l, posting.values)
  {
    var ids := if posting.space == GlobalId then posting.values else ReadBack(l, posting.values);
    if g in ids {
      var i :| 0 <= i < |ids| && ids[i] == g;
      assert g == IdOf(l, posting.space, posting.values[i]);
    }
  }

  /** Compiling one posting of a list changes neither validity nor the ids named. */
  lemma CompiledSameIds<V>(l: Layout<V>, postings: seq<Posting>, p: nat)
    requires Usable(l, |l.vectors|) && p < |postings| && postings[p].space == GlobalId
    requires AllBelow(postings[p].values, |l.vectors|)
    ensures var compiled := postings[p := Posting(SortNats(Compiled(l, postings[p].values)), PhysicalPosition)];
      && IdsIn(l, compiled) == IdsIn(l, postings)
      && (PostingsValid(compiled, |l.vectors|) <==> PostingsValid(postings, |l.vectors|))
  {
    var values := postings[p].values;
    var sorted := SortNats(Compiled(l, values));
    var now := Posting(sorted, PhysicalPosition);
    CompiledRoundTrip(l, values);
    forall g: nat ensures Named(l, now, |sorted|, g) <==> Named(l, postings[p], |values|, g) {
      NamedIsMember(l, now, g);
      NamedIsMember(l, postings[p], g);
      assert g in multiset(ReadBack(l, sorted)) <==> g in multiset(values);
    }
    var compiled := postings[p := now];
    forall r: nat, g: nat ensures NamedBy(l, compiled, r, g) <==> NamedBy(l, postings, r, g) {
      if r < |postings| && r != p {
        assert compiled[r] == postings[r];
      }
    }
    forall g: nat ensures g in IdsIn(l, compiled) <==> g in IdsIn(l, postings) {
      if g in IdsIn(l, postings) {
        var r: nat :| r < |postings| && NamedBy(l, postings, r, g);
        assert NamedBy(l, compiled, r, g);
      }
      if g in IdsIn(l, compiled) {
        var r: nat :| r < |compiled| && NamedBy(l, compiled, r, g);
        assert NamedBy(l, postings, r, g);
      }
    }
    forall r | 0 <= r < |postings| && r != p ensures compiled[r] == postings[r] {
    }
  }

  /** Therefore the ranked answer over compiled and uncompiled postings is the same. */
  method CompareCompiled<V>(l: Layout<V>, postings: seq<Posting>, p: nat, k: nat, distance: V -> int)
    returns (before: Option<seq<Hit>>, after: Option<seq<Hit>>)
    requires Usable(l, |l.vectors|) && p < |postings| && postings[p].space == GlobalId
    requires AllBelow(postings[p].values, |l.vectors|)
    ensures before == after
    ensures k == 0 ==> before == Some([])
    ensures k > 0 ==> (before.Some? <==> PostingsValid(postings, |l.vectors|))
    ensures k > 0 && before.Some? ==> Ranks(l, distance, IdsIn(l, postings), k, before.value)
  {
    hide Ranks, IdsIn, PostingsValid;
    var values := new nat[|postings[p].values|](i requires 0 <= i < |postings[p].values| => postings[p].values[i]);
    assert values[..] == postings[p].values;
    var receipt := CompileInPlace(l, values);
    CompiledSameIds(l, postings, p);
    before := ExactTopKPostings(l, postings, k, distance);
    var compiled := postings[p := Posting(values[..], PhysicalPosition)];
    after := ExactTopKPostings(l, compiled, k, distance);
    if k > 0 && before.Some? {
      RankingIsUnique(l, distance, IdsIn(l, postings), k, before.value, after.value);
    }
  }
}

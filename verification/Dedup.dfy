// finish_query: duplicate ids are removed in place, each id keeping its least
// distance, before the ranking is cut at k.

module Dedup {
  import opened Ranking

  predicate IdLess(x: Hit, y: Hit) {
    x.id < y.id || (x.id == y.id && x.distance <= y.distance)
  }

  ghost predicate SortedById(s: seq<Hit>) {
    forall i, j :: 0 <= i < j < |s| ==> IdLess(s[i], s[j])
  }

  function InsertById(h: Hit, s: seq<Hit>): seq<Hit> {
    if s == [] || IdLess(h, s[0]) then [h] + s else [s[0]] + InsertById(h, s[1..])
  }

  function SortById(s: seq<Hit>): seq<Hit> {
    if s == [] then [] else InsertById(s[0], SortById(s[1..]))
  }

  lemma {:induction false} InsertByIdCorrect(h: Hit, s: seq<Hit>)
    requires SortedById(s)
    ensures SortedById(InsertById(h, s)) && multiset(InsertById(h, s)) == multiset(s) + multiset{h}
  {
    if !(s == [] || IdLess(h, s[0])) {
      InsertByIdCorrect(h, s[1..]);
      assert s == [s[0]] + s[1..];
      var rest := InsertById(h, s[1..]);
      forall i | 0 <= i < |rest| ensures IdLess(s[0], rest[i]) {
        assert rest[i] in multiset(rest);
        assert rest[i] == h || rest[i] in s[1..];
      }
    }
  }

  lemma {:induction false} SortByIdCorrect(s: seq<Hit>)
    ensures SortedById(SortById(s)) && multiset(SortById(s)) == multiset(s)
  {
    if s != [] {
      SortByIdCorrect(s[1..]);
      InsertByIdCorrect(s[0], SortById(s[1..]));
      assert s == [s[0]] + s[1..];
    }
  }

  ghost function Seen(all: seq<Hit>, n: nat): set<Hit>
    requires n <= |all|
  {
    set i | 0 <= i < n :: all[i]
  }

  ghost predicate IdsAscend(kept: seq<Hit>) {
    forall i, j :: 0 <= i < j < |kept| ==> kept[i].id < kept[j].id
  }

  /** h has the least distance of its id. */
  ghost predicate LeastOfId(h: Hit, all: set<Hit>) {
    h in all && forall g :: g in all && g.id == h.id ==> h.distance <= g.distance
  }

  ghost predicate Represented(g: Hit, kept: seq<Hit>) {
    exists h :: h in kept && h.id == g.id
  }

  /** Every id of `all` once, with its least distance, ids ascending. */
  ghost predicate Deduplicated(kept: seq<Hit>, all: set<Hit>) {
    && IdsAscend(kept)
    && (forall h :: h in kept ==> LeastOfId(h, all))
    && (forall g :: g in all ==> Represented(g, kept))
  }

  /** A run of one larger id is represented by its least hit. */
  lemma AddRun(kept: seq<Hit>, all: set<Hit>, run: set<Hit>, least: Hit)
    requires Deduplicated(kept, all) && LeastOfId(least, run)
    requires (forall g :: g in run ==> g.id == least.id) && (forall g :: g in all ==> g.id < least.id)
    ensures Deduplicated(kept + [least], all + run)
  {
    var more := kept + [least];
    forall h | h in kept ensures h.id < least.id && LeastOfId(h, all + run) {
      assert LeastOfId(h, all);
    }
    forall g | g in all + run ensures Represented(g, more) {
      if g in all {
        assert Represented(g, kept);
        var h :| h in kept && h.id == g.id;
        assert h in more;
      } else {
        assert least in more;
      }
    }
    assert forall i :: 0 <= i < |kept| ==> kept[i] in kept;
  }

  /** Equal ids of a sorted list stand together and begin with their least hit. */
  lemma RunOf(all: seq<Hit>, read: nat, next: nat)
    requires SortedById(all) && read < next <= |all|
    requires forall i :: read <= i < next ==> all[i].id == all[read].id
    requires read > 0 ==> all[read - 1].id < all[read].id
    ensures Seen(all, next) == Seen(all, read) + (set i | read <= i < next :: all[i])
    ensures LeastOfId(all[read], set i | read <= i < next :: all[i])
    ensures forall g :: g in Seen(all, read) ==> g.id < all[read].id
  {
    forall i | read <= i < next ensures all[read].distance <= all[i].distance {
      assert i == read || IdLess(all[read], all[i]);
    }
    forall i | 0 <= i < read ensures all[i].id < all[read].id {
      assert i == read - 1 || IdLess(all[i], all[read - 1]);
    }
  }

  /** The read/write compaction, in place on a list sorted by (id, distance). */
  method Compact(a: array<Hit>) returns (write: nat)
    requires SortedById(a[..])
    modifies a
    ensures write <= a.Length && Deduplicated(a[..write], Seen(old(a[..]), a.Length))
  {
    hide Deduplicated, Seen, LeastOfId;
    ghost var all := a[..];
    write := 0;
    var read := 0;
    NothingYet(all);
    while read < a.Length
      invariant write <= read <= a.Length
      invariant forall i :: read <= i < a.Length ==> a[i] == all[i]
      invariant Deduplicated(a[..write], Seen(all, read))
      invariant 0 < read < a.Length ==> all[read - 1].id < all[read].id
      decreases a.Length - read
    {
      var id := a[read].id;
      var best := a[read].distance;
      var next := read + 1;
      while next < a.Length && a[next].id == id
        invariant read < next <= a.Length && best == all[read].distance
        invariant forall i :: read <= i < next ==> all[i].id == id
      {
        assert IdLess(all[read], all[next]);
        best := Min(best, a[next].distance);
        next := next + 1;
      }
      RunOf(all, read, next);
      AddRun(a[..write], Seen(all, read), set i | read <= i < next :: all[i], all[read]);
      ghost var kept := a[..write];
      a[write] := Hit(best, id);
      write := write + 1;
      assert a[..write] == kept + [all[read]];
      assert next < a.Length ==> IdLess(all[next - 1], all[next]);
      read := next;
    }
  }

  lemma NothingYet(all: seq<Hit>)
    ensures Deduplicated([], Seen(all, 0))
  {
  }

  lemma SeenIgnoresOrder(x: seq<Hit>, y: seq<Hit>)
    requires multiset(x) == multiset(y)
    ensures Seen(x, |x|) == Seen(y, |y|)
  {
    forall h ensures h in Seen(x, |x|) <==> h in Seen(y, |y|) {
      assert h in Seen(x, |x|) <==> h in multiset(x);
      assert h in Seen(y, |y|) <==> h in multiset(y);
    }
  }

  /** The ids are the k least hits of the list that keeps each id once, with its least distance. */
  ghost predicate RanksDistinct(merged: seq<Hit>, k: nat, ids: seq<int>) {
    exists kept: seq<Hit> :: Deduplicated(kept, Seen(merged, |merged|)) && ids == Ids(TopK(kept, k))
  }

  /** finish_query: with several clauses duplicates are removed first. */
  method FinishQuery(merged: seq<Hit>, clauses: nat, k: nat) returns (ids: seq<int>)
    ensures clauses <= 1 ==> ids == Ids(TopK(merged, k))
    ensures clauses > 1 ==> RanksDistinct(merged, k, ids)
  {
    if clauses > 1 {
      var sorted := SortById(merged);
      SortByIdCorrect(merged);
      var a := new Hit[|sorted|](i requires 0 <= i < |sorted| => sorted[i]);
      assert a[..] == sorted;
      var write := Compact(a);
      SeenIgnoresOrder(sorted, merged);
      ids := Ids(TopK(a[..write], k));
      assert Deduplicated(a[..write], Seen(merged, |merged|));
    } else {
      ids := Ids(TopK(merged, k));
    }
  }

  lemma SameLeast(x: seq<Hit>, y: seq<Hit>, all: set<Hit>, h: Hit)
    requires Deduplicated(x, all) && Deduplicated(y, all) && h in x
    ensures h in y
  {
    assert LeastOfId(h, all);
    assert Represented(h, y);
    var g :| g in y && g.id == h.id;
    assert LeastOfId(g, all);
  }

  /** The de-duplicated list is a single value. */
  lemma DeduplicatedIsUnique(x: seq<Hit>, y: seq<Hit>, all: set<Hit>)
    requires Deduplicated(x, all) && Deduplicated(y, all)
    ensures x == y
  {
    forall h ensures h in x <==> h in y {
      if h in x { SameLeast(x, y, all, h); }
      if h in y { SameLeast(y, x, all, h); }
    }
    ById(x, y);
  }

  /** So is the answer. */
  lemma DistinctRankingIsUnique(merged: seq<Hit>, k: nat, x: seq<int>, y: seq<int>)
    requires RanksDistinct(merged, k, x) && RanksDistinct(merged, k, y)
    ensures x == y
  {
    var a: seq<Hit> :| Deduplicated(a, Seen(merged, |merged|)) && x == Ids(TopK(a, k));
    var b: seq<Hit> :| Deduplicated(b, Seen(merged, |merged|)) && y == Ids(TopK(b, k));
    DeduplicatedIsUnique(a, b, Seen(merged, |merged|));
  }

  /** The answer spelled out: each id with its least distance in `merged`, a smaller
      distance first and of equal distances the smaller id, no id twice; an id is
      left out only when k others are better. */
  lemma DistinctRankingMeans(merged: seq<Hit>, k: nat, ids: seq<int>) returns (best: seq<int>)
    requires RanksDistinct(merged, k, ids)
    ensures |best| == |ids| <= k
    ensures forall i :: 0 <= i < |ids| ==> Hit(best[i], ids[i]) in merged
    ensures forall i, h :: 0 <= i < |ids| && h in merged && h.id == ids[i] ==> best[i] <= h.distance
    ensures forall i, j :: 0 <= i < j < |ids| ==>
      ids[i] != ids[j] && (best[i] < best[j] || (best[i] == best[j] && ids[i] < ids[j]))
    ensures forall h :: h in merged && h.id !in ids ==>
      |ids| == k && forall i :: 0 <= i < k ==> h.distance > best[i] || (h.distance == best[i] && h.id > ids[i])
  {
    hide TopK, Deduplicated, IdsAscend, Seen;
    var kept: seq<Hit> :| Deduplicated(kept, Seen(merged, |merged|)) && ids == Ids(TopK(kept, k));
    var top := TopK(kept, k);
    KeptAscends(kept, merged);
    TopKMeans(kept, k);
    best := seq(|top|, i requires 0 <= i < |top| => top[i].distance);
    forall i | 0 <= i < |ids|
      ensures Hit(best[i], ids[i]) in merged
      ensures forall h :: h in merged && h.id == ids[i] ==> best[i] <= h.distance
    {
      assert top[i] == Hit(best[i], ids[i]) && top[i] in top;
      KeptIsLeast(kept, merged, top[i]);
    }
    forall i, j | 0 <= i < j < |ids| ensures ids[i] != ids[j] {
      TopKOnce(kept, k, i, j);
    }
    forall h | h in merged && h.id !in ids
      ensures |ids| == k
      ensures forall i :: 0 <= i < k ==> h.distance > best[i] || (h.distance == best[i] && h.id > ids[i])
    {
      var g := LeastFor(kept, merged, h);
      assert g !in top by {
        assert forall i :: 0 <= i < |top| ==> top[i].id in ids;
      }
      TopKFull(kept, k, g);
    }
  }

  lemma KeptAscends(kept: seq<Hit>, merged: seq<Hit>)
    requires Deduplicated(kept, Seen(merged, |merged|))
    ensures IdsAscend(kept) && forall i, j :: 0 <= i < j < |kept| ==> kept[i].id != kept[j].id
  {
  }

  lemma KeptIsLeast(kept: seq<Hit>, merged: seq<Hit>, g: Hit)
    requires Deduplicated(kept, Seen(merged, |merged|)) && g in kept
    ensures g in merged && forall h :: h in merged && h.id == g.id ==> g.distance <= h.distance
  {
    assert LeastOfId(g, Seen(merged, |merged|));
    assert forall h :: h in merged ==> h in Seen(merged, |merged|);
  }

  lemma LeastFor(kept: seq<Hit>, merged: seq<Hit>, h: Hit) returns (g: Hit)
    requires Deduplicated(kept, Seen(merged, |merged|)) && h in merged
    ensures g in kept && g.id == h.id && g.distance <= h.distance
  {
    assert h in Seen(merged, |merged|);
    assert Represented(h, kept);
    g :| g in kept && g.id == h.id;
    KeptIsLeast(kept, merged, g);
  }

  lemma TopKOnce(kept: seq<Hit>, k: nat, i: nat, j: nat)
    requires IdsAscend(kept) && i < j < |TopK(kept, k)|
    ensures TopK(kept, k)[i].id != TopK(kept, k)[j].id
  {
    hide TopK;
    var rows := TopKPicks(kept, k);
    assert rows[i] < rows[j] || rows[j] < rows[i];
  }

  lemma TopKFull(kept: seq<Hit>, k: nat, h: Hit)
    requires IdsAscend(kept) && h in kept && h !in TopK(kept, k)
    ensures |TopK(kept, k)| == k
  {
    hide TopK;
    var rows := TopKPicks(kept, k);
    var r :| 0 <= r < |kept| && kept[r] == h;
    assert r !in rows by {
      assert forall i :: 0 <= i < |rows| ==> kept[rows[i]] == TopK(kept, k)[i];
    }
  }

  lemma TailById(x: seq<Hit>)
    requires IdsAscend(x) && x != []
    ensures forall h :: h in x[1..] <==> h in x && h != x[0]
  {
    assert x == [x[0]] + x[1..];
    assert forall i :: 0 <= i < |x| - 1 ==> x[1..][i].id > x[0].id;
  }

  lemma {:induction false} ById(x: seq<Hit>, y: seq<Hit>)
    requires IdsAscend(x) && IdsAscend(y) && forall h :: h in x <==> h in y
    ensures x == y
  {
    assert |x| > 0 ==> x[0] in y;
    assert |y| > 0 ==> y[0] in x;
    if x != [] {
      assert x[0] == y[0];
      TailById(x);
      TailById(y);
      ById(x[1..], y[1..]);
      assert x == [x[0]] + x[1..] && y == [y[0]] + y[1..];
    }
  }
}

// Hits and the reference answer of every exact scanner: sort all hits by
// (distance, id) and keep the first k.

module Ranking {

  /** A squared distance with the global id it belongs to. */
  datatype Hit = Hit(distance: int, id: int)

  /** `operator<` of a (distance, id) pair: lexicographic. */
  predicate Below(x: Hit, y: Hit) {
    x.distance < y.distance || (x.distance == y.distance && x.id < y.id)
  }

  predicate AtMost(x: Hit, y: Hit) {
    x == y || Below(x, y)
  }

  ghost predicate Sorted(s: seq<Hit>) {
    forall i, j :: 0 <= i < j < |s| ==> AtMost(s[i], s[j])
  }

  function Insert(h: Hit, s: seq<Hit>): seq<Hit> {
    if s == [] || AtMost(h, s[0]) then [h] + s else [s[0]] + Insert(h, s[1..])
  }

  function Sort(s: seq<Hit>): seq<Hit> {
    if s == [] then [] else Insert(s[0], Sort(s[1..]))
  }

  function Min(a: int, b: int): int {
    if a <= b then a else b
  }

  /** The reference answer: the k least hits, in rank order. */
  function TopK(s: seq<Hit>, k: nat): seq<Hit>
  {
    SortLength(s);
    Sort(s)[..Min(k, |s|)]
  }

  function Ids(s: seq<Hit>): (ids: seq<int>)
    ensures |ids| == |s| && forall i :: 0 <= i < |s| ==> ids[i] == s[i].id
  {
    seq(|s|, i requires 0 <= i < |s| => s[i].id)
  }

  lemma {:induction false} InsertContents(h: Hit, s: seq<Hit>)
    ensures multiset(Insert(h, s)) == multiset{h} + multiset(s)
    ensures |Insert(h, s)| == |s| + 1
  {
    if s == [] || AtMost(h, s[0]) {
    } else {
      InsertContents(h, s[1..]);
      assert s == [s[0]] + s[1..];
    }
  }

  lemma {:induction false} InsertSorted(h: Hit, s: seq<Hit>)
    requires Sorted(s)
    ensures Sorted(Insert(h, s))
  {
    if s == [] || AtMost(h, s[0]) {
    } else {
      var rest := Insert(h, s[1..]);
      InsertSorted(h, s[1..]);
      InsertContents(h, s[1..]);
      forall j | 0 <= j < |rest| ensures AtMost(s[0], rest[j]) {
        assert rest[j] in multiset(rest);
        assert rest[j] == h || rest[j] in s[1..];
      }
    }
  }

  lemma SortLength(s: seq<Hit>)
    ensures |Sort(s)| == |s|
  {
    SortContents(s);
    assert |multiset(Sort(s))| == |multiset(s)|;
  }

  lemma {:induction false} SortContents(s: seq<Hit>)
    ensures multiset(Sort(s)) == multiset(s)
  {
    if s != [] {
      SortContents(s[1..]);
      InsertContents(s[0], Sort(s[1..]));
      assert s == [s[0]] + s[1..];
    }
  }

  lemma {:induction false} SortSorted(s: seq<Hit>)
    ensures Sorted(Sort(s))
  {
    if s != [] {
      SortSorted(s[1..]);
      InsertSorted(s[0], Sort(s[1..]));
    }
  }

  /** A sorted sequence is determined by its contents: ties are equal hits. */
  lemma {:induction false} SortedIsUnique(s: seq<Hit>, t: seq<Hit>)
    requires Sorted(s) && Sorted(t) && multiset(s) == multiset(t)
    ensures s == t
  {
    assert |multiset(s)| == |s| && |multiset(t)| == |t|;
    if s != [] {
      assert s[0] in multiset(t) && t[0] in multiset(s);
      assert s[0] == t[0];
      assert s == [s[0]] + s[1..] && t == [t[0]] + t[1..];
      assert multiset(s[1..]) == multiset(s) - multiset{s[0]};
      assert multiset(t[1..]) == multiset(t) - multiset{t[0]};
      SortedIsUnique(s[1..], t[1..]);
    }
  }

  /** The answer does not depend on the order in which candidates are visited. */
  lemma TopKIgnoresOrder(s: seq<Hit>, t: seq<Hit>, k: nat)
    requires multiset(s) == multiset(t)
    ensures TopK(s, k) == TopK(t, k)
  {
    SortContents(s);
    SortContents(t);
    SortSorted(s);
    SortSorted(t);
    SortedIsUnique(Sort(s), Sort(t));
    SortLength(s);
    SortLength(t);
  }

  /** `kept` is a set of k least elements of `all`, duplicates counted. */
  ghost predicate Keeps(kept: multiset<Hit>, all: multiset<Hit>, k: nat) {
    && kept <= all
    && |kept| == Min(k, |all|)
    && forall x, y :: x in kept && y in all - kept ==> AtMost(x, y)
  }

  lemma PrefixKeeps(t: seq<Hit>, n: nat)
    requires Sorted(t) && n <= |t|
    ensures multiset(t) - multiset(t[..n]) == multiset(t[n..])
    ensures forall x, y :: x in multiset(t[..n]) && y in multiset(t[n..]) ==> AtMost(x, y)
  {
    assert t == t[..n] + t[n..];
    forall x, y | x in t[..n] && y in t[n..]
      ensures AtMost(x, y)
    {
      var i :| 0 <= i < n && t[..n][i] == x;
      var j :| 0 <= j < |t| - n && t[n..][j] == y;
      assert AtMost(t[i], t[n + j]);
    }
  }

  lemma TopKKeeps(s: seq<Hit>, k: nat)
    ensures Keeps(multiset(TopK(s, k)), multiset(s), k)
    ensures Sorted(TopK(s, k))
  {
    hide Sort, Sorted;
    SortContents(s);
    SortSorted(s);
    SortLength(s);
    PrefixIsKept(Sort(s), s, k);
  }

  lemma PrefixIsKept(t: seq<Hit>, s: seq<Hit>, k: nat)
    requires Sorted(t) && multiset(t) == multiset(s) && |t| == |s|
    ensures Keeps(multiset(t[..Min(k, |s|)]), multiset(s), k)
    ensures Sorted(t[..Min(k, |s|)])
  {
    hide AtMost;
    var n := Min(k, |s|);
    PrefixKeeps(t, n);
    assert |multiset(s)| == |s|;
    assert t == t[..n] + t[n..];
    assert multiset(t) == multiset(t[..n]) + multiset(t[n..]);
  }

  lemma SubsetOfSameSize(a: multiset<Hit>, b: multiset<Hit>)
    requires a <= b && |a| == |b|
    ensures a == b
  {
    assert |b - a| == |b| - |a|;
    assert b == a + (b - a);
  }

  lemma SmallerSomewhere(a: multiset<Hit>, b: multiset<Hit>)
    requires |a| == |b| && a != b
    ensures exists x :: a[x] > b[x]
  {
    if a <= b {
      SubsetOfSameSize(a, b);
    }
  }

  lemma LeftOutIsAbove(a: multiset<Hit>, b: multiset<Hit>, all: multiset<Hit>, k: nat, x: Hit)
    requires a <= all && Keeps(b, all, k) && a[x] > b[x]
    ensures forall y :: y in b ==> AtMost(y, x)
  {
    assert x in all - b;
  }

  lemma KeepsIsUnique(a: multiset<Hit>, b: multiset<Hit>, all: multiset<Hit>, k: nat)
    requires Keeps(a, all, k) && Keeps(b, all, k)
    ensures a == b
  {
    if a != b {
      SmallerSomewhere(a, b);
      SmallerSomewhere(b, a);
      var x :| a[x] > b[x];
      var y :| b[y] > a[y];
      LeftOutIsAbove(a, b, all, k, x);
      LeftOutIsAbove(b, a, all, k, y);
    }
  }

  /** Sorting k kept least hits gives the reference answer. */
  lemma SortedKeepsIsTopK(r: seq<Hit>, s: seq<Hit>, k: nat)
    requires Sorted(r) && Keeps(multiset(r), multiset(s), k)
    ensures r == TopK(s, k)
  {
    TopKKeeps(s, k);
    KeepsIsUnique(multiset(r), multiset(TopK(s, k)), multiset(s), k);
    SortedIsUnique(r, TopK(s, k));
  }

  // --- The reference answer in terms of the rows behind the hits ---

  lemma {:induction false} InsertPlace(h: Hit, s: seq<Hit>) returns (at: nat)
    ensures at <= |s| && Insert(h, s) == s[..at] + [h] + s[at..]
  {
    if s == [] || AtMost(h, s[0]) {
      at := 0;
    } else {
      at := InsertPlace(h, s[1..]);
      at := at + 1;
      assert s == [s[0]] + s[1..];
    }
  }

  /** `rows` names each of the first n rows once. */
  ghost predicate EachOnce(rows: seq<nat>, n: nat) {
    && |rows| == n && (forall r: nat :: r in rows <==> r < n)
    && forall i, j :: 0 <= i < j < |rows| ==> rows[i] != rows[j]
  }

  lemma Shifted(rest: seq<nat>, n: nat) returns (rows: seq<nat>)
    requires EachOnce(rest, n)
    ensures |rows| == n && forall i :: 0 <= i < n ==> rows[i] == rest[i] + 1
    ensures forall r: nat :: r in rows <==> 0 < r <= n
    ensures forall i, j :: 0 <= i < j < |rows| ==> rows[i] != rows[j]
  {
    rows := seq(n, i requires 0 <= i < |rest| => rest[i] + 1);
    forall i | 0 <= i < n ensures rest[i] < n {
      assert rest[i] in rest;
    }
    forall r: nat | 0 < r <= n ensures r in rows {
      assert r - 1 in rest;
      var i :| 0 <= i < n && rest[i] == r - 1;
      assert rows[i] == r;
    }
  }

  lemma InsertedMembers(others: seq<nat>, at: nat)
    requires at <= |others|
    ensures forall r: nat :: r in others[..at] + [0] + others[at..] <==> r == 0 || r in others
  {
    assert others == others[..at] + others[at..];
  }

  lemma InsertedOnce(others: seq<nat>, at: nat)
    requires at <= |others| && forall i :: 0 <= i < |others| ==> others[i] > 0
    requires forall i, j :: 0 <= i < j < |others| ==> others[i] != others[j]
    ensures var rows := others[..at] + [0] + others[at..];
      forall i, j :: 0 <= i < j < |rows| ==> rows[i] != rows[j]
  {
  }

  /** Row 0 comes to stand at a place among the others. */
  lemma FirstAmongOthers(others: seq<nat>, n: nat, at: nat)
    requires |others| == n && at <= n && forall r: nat :: r in others <==> 0 < r <= n
    requires forall i, j :: 0 <= i < j < |others| ==> others[i] != others[j]
    ensures EachOnce(others[..at] + [0] + others[at..], n + 1)
  {
    forall i | 0 <= i < n ensures others[i] > 0 {
      assert others[i] in others;
    }
    InsertedMembers(others, at);
    InsertedOnce(others, at);
  }

  /** Where each hit of the sorted list came from. */
  lemma {:induction false} SortPicks(s: seq<Hit>) returns (rows: seq<nat>)
    ensures EachOnce(rows, |s|) && |Sort(s)| == |s|
    ensures forall i :: 0 <= i < |s| ==> rows[i] < |s| && Sort(s)[i] == s[rows[i]]
  {
    rows := [];
    if s != [] {
      var rest := SortPicks(s[1..]);
      var others := Shifted(rest, |s| - 1);
      var at := InsertPlace(s[0], Sort(s[1..]));
      FirstAmongOthers(others, |s| - 1, at);
      hide EachOnce;
      rows := others[..at] + [0] + others[at..];
      forall i | 0 <= i < |s| ensures rows[i] < |s| && Sort(s)[i] == s[rows[i]] {
        if i < at {
          assert Sort(s)[i] == Sort(s[1..])[i] == s[1..][rest[i]];
        } else if i > at {
          assert Sort(s)[i] == Sort(s[1..])[i - 1] == s[1..][rest[i - 1]];
        }
      }
    }
  }

  /** The rows an answer is made of, one for each place: a smaller distance comes
      first, of equal distances the smaller id; what is left out is no better. */
  lemma TopKPicks(s: seq<Hit>, k: nat) returns (rows: seq<nat>)
    ensures |rows| == |TopK(s, k)| == if k <= |s| then k else |s|
    ensures |s| <= k ==> forall r: nat :: r < |s| ==> r in rows
    ensures forall i :: 0 <= i < |rows| ==> rows[i] < |s| && TopK(s, k)[i] == s[rows[i]]
    ensures forall i, j :: 0 <= i < j < |rows| ==>
      && rows[i] != rows[j]
      && (|| s[rows[i]].distance < s[rows[j]].distance
          || (s[rows[i]].distance == s[rows[j]].distance && s[rows[i]].id <= s[rows[j]].id))
    ensures forall i, r :: 0 <= i < |rows| && 0 <= r < |s| && r !in rows ==>
      || s[r].distance > s[rows[i]].distance
      || (s[r].distance == s[rows[i]].distance && s[r].id >= s[rows[i]].id)
  {
    var all := SortPicks(s);
    SortSorted(s);
    rows := all[..if k <= |s| then k else |s|];
    assert |s| <= k ==> rows == all;
    forall i, r | 0 <= i < |rows| && 0 <= r < |s| && r !in rows
      ensures AtMost(s[rows[i]], s[r])
    {
      assert r in all && all == rows + all[|rows|..];
      var m :| 0 <= m < |all| - |rows| && all[|rows|..][m] == r;
      assert AtMost(Sort(s)[i], Sort(s)[|rows| + m]);
    }
    forall i, j | 0 <= i < j < |rows| ensures AtMost(s[rows[i]], s[rows[j]]) {
      assert AtMost(Sort(s)[i], Sort(s)[j]);
    }
  }

  /** The same on the hits themselves, when no two have one id. */
  lemma TopKMeans(s: seq<Hit>, k: nat)
    requires forall i, j :: 0 <= i < j < |s| ==> s[i].id != s[j].id
    ensures var top := TopK(s, k);
      && |top| == (if k <= |s| then k else |s|)
      && (forall h :: h in top ==> h in s)
      && (forall i, j :: 0 <= i < j < |top| ==>
            || top[i].distance < top[j].distance
            || (top[i].distance == top[j].distance && top[i].id < top[j].id))
      && (forall i, h :: 0 <= i < |top| && h in s && h !in top ==>
            || h.distance > top[i].distance
            || (h.distance == top[i].distance && h.id > top[i].id))
  {
    hide TopK;
    var top := TopK(s, k);
    var rows := TopKPicks(s, k);
    forall i, h | 0 <= i < |top| && h in s && h !in top
      ensures h.distance > top[i].distance || (h.distance == top[i].distance && h.id > top[i].id)
    {
      var r :| 0 <= r < |s| && s[r] == h;
      assert r !in rows by {
        assert forall m :: 0 <= m < |rows| ==> s[rows[m]] == top[m];
      }
    }
  }

  // --- What one more candidate does to a kept set ---

  lemma KeepsFill(kept: multiset<Hit>, all: multiset<Hit>, k: nat, h: Hit)
    requires Keeps(kept, all, k) && |all| < k
    ensures Keeps(kept + multiset{h}, all + multiset{h}, k)
  {
    assert |all - kept| == |all| - |kept|;
    assert all == kept + (all - kept);
    assert all == kept;
  }

  lemma KeepsIgnore(kept: multiset<Hit>, all: multiset<Hit>, k: nat, h: Hit)
    requires Keeps(kept, all, k) && |all| >= k
    requires forall x :: x in kept ==> AtMost(x, h)
    ensures Keeps(kept, all + multiset{h}, k)
  {
    forall x, y | x in kept && y in all + multiset{h} - kept
      ensures AtMost(x, y)
    {
      assert y == h || y in all - kept;
    }
  }

  lemma KeepsReplace(kept: multiset<Hit>, all: multiset<Hit>, k: nat, top: Hit, h: Hit)
    requires Keeps(kept, all, k) && |all| >= k
    requires top in kept && forall x :: x in kept ==> AtMost(x, top)
    requires Below(h, top)
    ensures Keeps(kept - multiset{top} + multiset{h}, all + multiset{h}, k)
  {
    var now := kept - multiset{top} + multiset{h};
    forall x, y | x in now && y in all + multiset{h} - now
      ensures AtMost(x, y)
    {
      assert x == h || x in kept;
      assert y == top || y in all - kept;
    }
  }
}

// The max-heap algorithms the scanners use on a fixed buffer: make, pop, push.
// The heap occupies the first n slots and its greatest hit is at the front.

module BinaryHeap {
  import opened Ranking

  function Parent(i: nat): nat
    requires i > 0
  {
    (i - 1) / 2
  }

  ghost predicate Edge(s: seq<Hit>, i: nat)
    requires 0 < i < |s|
  {
    AtMost(s[i], s[Parent(i)])
  }

  /** Heap order restricted to parents at index `lo` or later. */
  ghost predicate HeapFrom(s: seq<Hit>, lo: nat) {
    forall i :: 0 < i < |s| && lo <= Parent(i) ==> Edge(s, i)
  }

  ghost predicate IsHeap(s: seq<Hit>) {
    HeapFrom(s, 0)
  }

  /** A heap except that node i may be greater than its parent. */
  ghost predicate RisingAt(s: seq<Hit>, i: nat)
    requires i < |s|
  {
    && (forall j :: 0 < j < |s| && j != i ==> Edge(s, j))
    && (forall j :: 0 < j < |s| && i > 0 && Parent(j) == i ==> AtMost(s[j], s[Parent(i)]))
  }

  /** A heap from lo on, except that node i may be less than its children. */
  ghost predicate SinkingAt(s: seq<Hit>, lo: nat, i: nat)
    requires i < |s|
  {
    && lo <= i && (lo < i ==> lo <= Parent(i))
    && (forall j :: 0 < j < |s| && lo <= Parent(j) && Parent(j) != i ==> Edge(s, j))
    && (forall j :: 0 < j < |s| && lo < i && Parent(j) == i ==> AtMost(s[j], s[Parent(i)]))
  }

  function Swapped(s: seq<Hit>, i: nat, j: nat): (t: seq<Hit>)
    requires i < |s| && j < |s|
    ensures multiset(t) == multiset(s)
  {
    s[i := s[j]][j := s[i]]
  }

  lemma {:induction false} FrontBounds(s: seq<Hit>, i: nat)
    requires IsHeap(s) && i < |s|
    ensures AtMost(s[i], s[0])
  {
    if i > 0 {
      FrontBounds(s, Parent(i));
      assert Edge(s, i);
    }
  }

  lemma FrontIsGreatest(s: seq<Hit>)
    requires IsHeap(s) && s != []
    ensures forall x :: x in multiset(s) ==> AtMost(x, s[0])
  {
    forall x | x in multiset(s) ensures AtMost(x, s[0]) {
      var i :| 0 <= i < |s| && s[i] == x;
      FrontBounds(s, i);
    }
  }

  lemma FrontRejects(s: seq<Hit>, hit: Hit)
    requires IsHeap(s) && s != [] && !Below(hit, s[0])
    ensures AtMost(s[0], hit)
    ensures forall x :: x in multiset(s) ==> AtMost(x, hit)
  {
    FrontIsGreatest(s);
  }

  lemma RiseStep(s: seq<Hit>, i: nat)
    requires 0 < i < |s| && RisingAt(s, i) && Below(s[Parent(i)], s[i])
    ensures RisingAt(Swapped(s, i, Parent(i)), Parent(i))
  {
    var p, t := Parent(i), Swapped(s, i, Parent(i));
    forall j | 0 < j < |s| && j != p ensures Edge(t, j) {
      assert j != i ==> Edge(s, j);
      assert p > 0 ==> Edge(s, p);
    }
    forall j | 0 < j < |s| && p > 0 && Parent(j) == p ensures AtMost(t[j], t[Parent(p)]) {
      assert Edge(s, p);
      assert j != i ==> Edge(s, j);
    }
  }

  lemma SinkStep(s: seq<Hit>, lo: nat, i: nat, child: nat)
    requires i < |s| && SinkingAt(s, lo, i)
    requires 0 < child < |s| && Parent(child) == i && Below(s[i], s[child])
    requires forall j :: 0 < j < |s| && Parent(j) == i ==> AtMost(s[j], s[child])
    ensures SinkingAt(Swapped(s, i, child), lo, child)
  {
    var t := Swapped(s, i, child);
    forall j | 0 < j < |s| && lo <= Parent(j) && Parent(j) != child ensures Edge(t, j) {
      assert Parent(j) != i ==> Edge(s, j);
    }
    forall j | 0 < j < |s| && lo < child && Parent(j) == child ensures AtMost(t[j], t[i]) {
      assert Edge(s, j);
    }
  }

  method Swap(a: array<Hit>, n: nat, i: nat, j: nat)
    requires i < n && j < n && n <= a.Length
    modifies a
    ensures a[..n] == Swapped(old(a[..n]), i, j) && a[n..] == old(a[n..])
  {
    a[i], a[j] := a[j], a[i];
  }

  method SiftUp(a: array<Hit>, n: nat)
    requires 0 < n <= a.Length && IsHeap(a[..n - 1])
    modifies a
    ensures IsHeap(a[..n])
    ensures multiset(a[..n]) == multiset(old(a[..n])) && a[n..] == old(a[n..])
  {
    var i := n - 1;
    assert RisingAt(a[..n], i) by {
      forall j | 0 < j < n && j != i ensures Edge(a[..n], j) {
        assert Edge(a[..n - 1], j);
      }
    }
    while i > 0 && Below(a[Parent(i)], a[i])
      invariant 0 <= i < n && RisingAt(a[..n], i)
      invariant multiset(a[..n]) == multiset(old(a[..n])) && a[n..] == old(a[n..])
    {
      RiseStep(a[..n], i);
      Swap(a, n, i, Parent(i));
      i := Parent(i);
    }
    assert i > 0 ==> Edge(a[..n], i);
  }

  lemma SinkBegins(s: seq<Hit>, lo: nat)
    requires lo < |s| && HeapFrom(s, lo + 1)
    ensures SinkingAt(s, lo, lo)
  {
    forall j | 0 < j < |s| && lo <= Parent(j) && Parent(j) != lo ensures Edge(s, j) {
    }
  }

  /** The chosen child is the greater one. */
  lemma GreaterChild(s: seq<Hit>, i: nat, child: nat)
    requires child < |s| && (child == 2 * i + 1 || child == 2 * i + 2)
    requires child == 2 * i + 1 && child + 1 < |s| ==> !Below(s[child], s[child + 1])
    requires child == 2 * i + 2 ==> Below(s[child - 1], s[child])
    ensures Parent(child) == i && forall j :: 0 < j < |s| && Parent(j) == i ==> AtMost(s[j], s[child])
  {
  }

  lemma SinkEnds(s: seq<Hit>, lo: nat, i: nat, child: nat)
    requires i < |s| && SinkingAt(s, lo, i) && child < |s| && !Below(s[i], s[child])
    requires forall j :: 0 < j < |s| && Parent(j) == i ==> AtMost(s[j], s[child])
    ensures HeapFrom(s, lo)
  {
    forall j | 0 < j < |s| && lo <= Parent(j) ensures Edge(s, j) {
      if Parent(j) == i {
        assert AtMost(s[j], s[child]);
      }
    }
  }

  lemma LeafEnds(s: seq<Hit>, lo: nat, i: nat)
    requires i < |s| && SinkingAt(s, lo, i) && 2 * i + 1 >= |s|
    ensures HeapFrom(s, lo)
  {
    forall j | 0 < j < |s| && lo <= Parent(j) ensures Edge(s, j) {
      assert Parent(j) != i;
    }
  }

  method SiftDown(a: array<Hit>, n: nat, lo: nat)
    requires lo < n <= a.Length && HeapFrom(a[..n], lo + 1)
    modifies a
    ensures HeapFrom(a[..n], lo)
    ensures multiset(a[..n]) == multiset(old(a[..n])) && a[n..] == old(a[n..])
  {
    hide SinkingAt, HeapFrom, Edge;
    var i := lo;
    SinkBegins(a[..n], lo);
    while 2 * i + 1 < n
      invariant i < n && SinkingAt(a[..n], lo, i)
      invariant multiset(a[..n]) == multiset(old(a[..n])) && a[n..] == old(a[n..])
    {
      var child := 2 * i + 1;
      if child + 1 < n && Below(a[child], a[child + 1]) {
        child := child + 1;
      }
      GreaterChild(a[..n], i, child);
      if !Below(a[i], a[child]) {
        SinkEnds(a[..n], lo, i, child);
        return;
      }
      SinkStep(a[..n], lo, i, child);
      Swap(a, n, i, child);
      i := child;
    }
    LeafEnds(a[..n], lo, i);
  }

  /** std::make_heap over the whole buffer. */
  method MakeHeap(a: array<Hit>)
    modifies a
    ensures IsHeap(a[..]) && multiset(a[..]) == multiset(old(a[..]))
  {
    assert a[..a.Length] == a[..];
    var lo := a.Length;
    while lo > 0
      invariant 0 <= lo <= a.Length
      invariant HeapFrom(a[..a.Length], lo)
      invariant multiset(a[..a.Length]) == multiset(old(a[..a.Length]))
    {
      lo := lo - 1;
      SiftDown(a, a.Length, lo);
    }
    assert a[..a.Length] == a[..];
  }

  lemma PopContents(s: seq<Hit>)
    requires IsHeap(s) && s != []
    ensures var t := Swapped(s, 0, |s| - 1)[..|s| - 1];
      HeapFrom(t, 1) && multiset(t) == multiset(s) - multiset{s[0]}
  {
    var u := Swapped(s, 0, |s| - 1);
    assert u == u[..|s| - 1] + [s[0]];
    forall i | 0 < i < |s| - 1 && 1 <= Parent(i) ensures Edge(u[..|s| - 1], i) {
      assert Edge(s, i);
    }
  }

  lemma SwappedLast(s: seq<Hit>)
    requires s != []
    ensures Swapped(s, 0, |s| - 1)[|s| - 1] == s[0]
  {
  }

  lemma LastSlot(s: seq<Hit>, n: nat)
    requires 0 < n <= |s|
    ensures s[n - 1..] == [s[..n][n - 1]] + s[n..]
  {
  }

  lemma NoHeap(s: seq<Hit>)
    requires s == []
    ensures IsHeap(s)
  {
  }

  /** std::pop_heap: the greatest hit moves to the last slot of the prefix. */
  method PopHeap(a: array<Hit>, n: nat)
    requires 0 < n <= a.Length && IsHeap(a[..n])
    modifies a
    ensures IsHeap(a[..n - 1])
    ensures a[n - 1..] == [old(a[0])] + old(a[n..])
    ensures multiset(a[..n - 1]) == multiset(old(a[..n])) - multiset{old(a[0])}
  {
    hide HeapFrom, Edge, Swapped;
    PopContents(a[..n]);
    SwappedLast(a[..n]);
    Swap(a, n, 0, n - 1);
    assert a[..n - 1] == a[..n][..n - 1];
    LastSlot(a[..], n);
    if n > 1 {
      SiftDown(a, n - 1, 0);
    } else {
      NoHeap(a[..n - 1]);
    }
  }
}

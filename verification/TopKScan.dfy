// The three accumulators behind the exact scanners: a fixed buffer heapified
// when it fills, a four-way buffered scanner on top of the same buffer, and a
// priority queue.  Each keeps a ghost record of the hits it was offered and
// answers with the k least of them.

module TopKScan {
  import opened Options
  import opened Ranking
  import opened BinaryHeap
  import opened DistanceKernels

  /** What a finished scan of `seen` must answer: too little support is an error. */
  function Answer(seen: seq<Hit>, k: nat): Option<seq<int>> {
    if |seen| < k then None else Some(Ids(TopK(seen, k)))
  }

  lemma AppendContents(s: seq<Hit>, h: Hit)
    ensures multiset(s + [h]) == multiset(s) + multiset{h}
    ensures |multiset(s)| == |s|
  {
  }

  lemma ReplacedAtMost(kept: multiset<Hit>, top: Hit, hit: Hit, x: Hit)
    requires Below(hit, top) && forall y :: y in kept ==> AtMost(y, top)
    requires x in kept - multiset{top} + multiset{hit}
    ensures AtMost(x, top)
  {
  }

  method PopAndOverwrite(a: array<Hit>, n: nat, hit: Hit)
    requires 0 < n <= a.Length && IsHeap(a[..n])
    modifies a
    ensures IsHeap(a[..n - 1])
    ensures multiset(a[..n]) == multiset(old(a[..n])) - multiset{old(a[0])} + multiset{hit}
  {
    hide IsHeap;
    PopHeap(a, n);
    ghost var rest := a[..n - 1];
    a[n - 1] := hit;
    assert a[..n - 1] == rest;
    assert a[..n] == rest + [hit];
  }

  /** The bounded buffer of the compact range scanner. */
  class TopKHeap {
    const k: nat
    const heap: array<Hit>
    var size: nat
    ghost var seen: seq<Hit>

    ghost function Kept(): multiset<Hit>
      reads this`size, heap
      requires size <= heap.Length
    {
      multiset(heap[..size])
    }

    ghost predicate Valid()
      reads this, heap
    {
      && heap.Length == k > 0
      && size == Min(k, |seen|)
      && Keeps(Kept(), multiset(seen), k)
      && (size == k ==> IsHeap(heap[..]))
    }

    constructor (k: nat)
      requires k > 0
      ensures Valid() && fresh(heap) && this.k == k && seen == []
    {
      this.k := k;
      heap := new Hit[k](_ => Hit(0, 0));
      size := 0;
      seen := [];
    }

    method Consider(hit: Hit)
      requires Valid()
      modifies this, heap
      ensures Valid() && seen == old(seen) + [hit]
      ensures old(Full()) ==> Full() && Threshold() <= old(Threshold())
    {
      hide Keeps, IsHeap, Kept;
      AppendContents(seen, hit);
      if size < k {
        KeepsFill(Kept(), multiset(seen), k, hit);
        Append(hit);
      } else {
        Compete(hit);
      }
      seen := seen + [hit];
    }

    /** A full buffer: the hit replaces the front or is rejected. */
    method Compete(hit: Hit)
      requires Valid() && size == k
      modifies heap
      ensures IsHeap(heap[..]) && Keeps(Kept(), multiset(seen) + multiset{hit}, k)
      ensures AtMost(heap[0], old(heap[0]))
    {
      hide Keeps, IsHeap, Below, Kept;
      KeptIsBuffer();
      AppendContents(seen, hit);
      if Below(hit, heap[0]) {
        FrontIsGreatest(heap[..]);
        KeepsReplace(Kept(), multiset(seen), k, heap[0], hit);
        ReplaceFront(hit);
      } else {
        FrontRejects(heap[..], hit);
        KeepsIgnore(Kept(), multiset(seen), k, hit);
      }
    }

    lemma KeptIsBuffer()
      requires size == heap.Length
      ensures Kept() == multiset(heap[..])
    {
      assert heap[..size] == heap[..];
    }

    /** Fills the next slot; the buffer becomes a heap when it is full. */
    method Append(hit: Hit)
      requires heap.Length == k && size < k
      modifies this`size, heap
      ensures size == old(size) + 1 && (size == k ==> IsHeap(heap[..]))
      ensures Kept() == old(Kept()) + multiset{hit}
    {
      hide IsHeap;
      heap[size] := hit;
      size := size + 1;
      assert heap[..size] == old(heap[..size]) + [hit];
      ghost var contents := multiset(heap[..size]);
      assert contents == old(Kept()) + multiset{hit};
      if size == k {
        KeptIsBuffer();
        MakeHeap(heap);
        assert multiset(heap[..]) == contents;
        KeptIsBuffer();
      }
    }

    /** pop_heap, overwrite the freed slot, push_heap. */
    method ReplaceFront(hit: Hit)
      requires heap.Length == k > 0 && IsHeap(heap[..])
      requires Below(hit, heap[0]) && forall x :: x in multiset(heap[..]) ==> AtMost(x, heap[0])
      modifies heap
      ensures IsHeap(heap[..])
      ensures multiset(heap[..]) == multiset(old(heap[..])) - multiset{old(heap[0])} + multiset{hit}
      ensures size == k ==> Kept() == multiset(heap[..])
      ensures AtMost(heap[0], old(heap[0]))
    {
      hide IsHeap, Below, AtMost;
      assert heap[..k] == heap[..];
      PopAndOverwrite(heap, k, hit);
      SiftUp(heap, k);
      assert heap[..k] == heap[..];
      ReplacedAtMost(multiset(old(heap[..])), old(heap[0]), hit, heap[..][0]);
    }

    /** Hits beyond the threshold may be skipped: the answer is the same. */
    ghost method Skip(hit: Hit)
      requires Valid() && Full() && Threshold() < hit.distance
      modifies this`seen
      ensures Valid() && Full() && seen == old(seen) + [hit] && Threshold() == old(Threshold())
    {
      assert heap[..size] == heap[..];
      FrontIsGreatest(heap[..]);
      assert |multiset(seen)| == |seen|;
      KeepsIgnore(multiset(heap[..]), multiset(seen), k, hit);
      assert multiset(seen + [hit]) == multiset(seen) + multiset{hit};
      seen := seen + [hit];
    }

    function Full(): bool
      reads this
    {
      size == k
    }

    /** The distance at the front; reading it before the buffer is full fails. */
    function Threshold(): int
      requires Valid() && Full()
      reads this, heap
    {
      heap[0].distance
    }

    method Finish() returns (result: Option<seq<int>>)
      requires Valid()
      ensures result == Answer(seen, k)
    {
      if size != k {
        return None;
      }
      assert heap[..size] == heap[..];
      var ordered := Sort(heap[..]);
      SortContents(heap[..]);
      SortSorted(heap[..]);
      SortedKeepsIsTopK(ordered, seen, k);
      result := Some(Ids(ordered));
    }
  }

  /** A candidate row: its vector and the global id it belongs to. */
  datatype Candidate = Candidate(vector: Vector, id: int)

  function HitOf(query: Vector, c: Candidate): Hit {
    Hit(SquaredL2(query, c.vector), c.id)
  }

  function Hits(query: Vector, cs: seq<Candidate>): (hits: seq<Hit>)
    ensures |hits| == |cs|
  {
    seq(|cs|, i requires 0 <= i < |cs| => HitOf(query, cs[i]))
  }

  lemma HitsAppend(query: Vector, cs: seq<Candidate>, c: Candidate)
    ensures Hits(query, cs + [c]) == Hits(query, cs) + [HitOf(query, c)]
  {
  }

  /** Up to four candidates wait until one four-lane distance call serves them. */
  class FourWayTopK {
    const query: Vector
    const vectors: array<Vector>
    const globals: array<int>
    var pending: nat
    const top: TopKHeap
    ghost var served: seq<Candidate>

    ghost predicate Separate() {
      && vectors.Length == 4 && globals.Length == 4
      && vectors as object != globals && vectors as object != top.heap && globals as object != top.heap
    }

    ghost predicate Valid()
      reads this, top, top.heap
    {
      && Separate() && pending < 4
      && top.Valid() && top.seen == Hits(query, served)
    }

    ghost function Waiting(): seq<Candidate>
      requires pending <= vectors.Length && pending <= globals.Length
      reads this`pending, vectors, globals
    {
      var n := pending;
      seq(n, i requires 0 <= i < n <= vectors.Length && n <= globals.Length reads vectors, globals =>
        Candidate(vectors[i], globals[i]))
    }

    /** Every candidate added so far, served or waiting. */
    ghost function Fed(): seq<Candidate>
      requires Valid()
      reads this, vectors, globals, top, top.heap
    {
      served + Waiting()
    }

    constructor (query: Vector, k: nat)
      requires k > 0
      ensures Valid() && fresh(vectors) && fresh(globals) && fresh(top) && fresh(top.heap)
      ensures this.query == query && top.k == k && Fed() == []
    {
      this.query := query;
      vectors := new Vector[4](_ => query);
      globals := new int[4](_ => 0);
      pending := 0;
      top := new TopKHeap(k);
      served := [];
    }

    method Add(vector: Vector, id: int)
      requires Valid()
      modifies this, vectors, globals, top, top.heap
      ensures Valid() && Fed() == old(Fed()) + [Candidate(vector, id)]
    {
      hide TopKHeap.Valid, Hits;
      vectors[pending], globals[pending] := vector, id;
      pending := pending + 1;
      assert Waiting() == old(Waiting()) + [Candidate(vector, id)];
      if pending == 4 {
        FlushFour();
      }
    }

    method FlushFour()
      requires Separate() && pending == 4
      requires top.Valid() && top.seen == Hits(query, served)
      modifies this, top, top.heap
      ensures Valid() && pending == 0 && served == old(served) + old(Waiting())
    {
      hide TopKHeap.Valid, Hits;
      ghost var waiting := Waiting();
      var ok, distances := FourDistances(query, vectors[..]);
      for lane := 0 to 4
        invariant Separate() && pending == 4 && ok
        invariant served == old(served) + waiting[..lane]
        invariant top.Valid() && top.seen == Hits(query, served)
      {
        Unwrapped(query, vectors[lane]);
        assert waiting[lane] == Candidate(vectors[lane], globals[lane]);
        HitsAppend(query, served, waiting[lane]);
        top.Consider(Hit(distances[lane], globals[lane]));
        served := served + [waiting[lane]];
      }
      pending := 0;
    }

    /** Serves the waiting candidates one by one, then ranks. */
    method Finish() returns (result: Option<seq<int>>)
      requires Valid()
      modifies this, top, top.heap
      ensures result == Answer(Hits(query, old(Fed())), top.k)
    {
      hide TopKHeap.Valid, Hits;
      ghost var waiting := Waiting();
      for lane := 0 to pending
        invariant Separate() && pending == old(pending) < 4
        invariant served == old(served) + waiting[..lane]
        invariant top.Valid() && top.seen == Hits(query, served)
      {
        var distance := OneDistance(query, vectors[lane]);
        HitsAppend(query, served, waiting[lane]);
        top.Consider(Hit(distance, globals[lane]));
        served := served + [waiting[lane]];
      }
      pending := 0;
      assert waiting[..|waiting|] == waiting;
      result := top.Finish();
    }
  }

  /** The priority queue of the posting scanners: a heap at every size. */
  class TopKQueue {
    const k: nat
    const heap: array<Hit>
    var size: nat
    ghost var seen: seq<Hit>

    ghost predicate Valid()
      reads this, heap
    {
      && heap.Length == k
      && size == Min(k, |seen|)
      && Keeps(multiset(heap[..size]), multiset(seen), k)
      && IsHeap(heap[..size])
    }

    constructor (k: nat)
      ensures Valid() && fresh(heap) && this.k == k && seen == []
    {
      this.k := k;
      heap := new Hit[k](_ => Hit(0, 0));
      size := 0;
      seen := [];
    }

    method Push(hit: Hit)
      requires size < heap.Length && IsHeap(heap[..size])
      modifies this`size, heap
      ensures size == old(size) + 1 && IsHeap(heap[..size])
      ensures multiset(heap[..size]) == multiset(old(heap[..size])) + multiset{hit}
    {
      heap[size] := hit;
      size := size + 1;
      assert heap[..size] == old(heap[..size]) + [hit];
      assert heap[..size - 1] == old(heap[..size]);
      SiftUp(heap, size);
    }

    method Pop() returns (top: Hit)
      requires 0 < size <= heap.Length && IsHeap(heap[..size])
      modifies this`size, heap
      ensures size == old(size) - 1 && IsHeap(heap[..size])
      ensures top == old(heap[0]) && forall x :: x in multiset(old(heap[..size])) ==> AtMost(x, top)
      ensures multiset(heap[..size]) == multiset(old(heap[..size])) - multiset{top}
    {
      FrontIsGreatest(heap[..size]);
      top := heap[0];
      PopHeap(heap, size);
      size := size - 1;
    }

    /** The worst kept hit makes room for a better one. */
    method Replace(hit: Hit)
      requires 0 < size <= heap.Length && IsHeap(heap[..size])
      modifies this`size, heap
      ensures size == old(size) && IsHeap(heap[..size])
      ensures multiset(heap[..size]) == multiset(old(heap[..size])) - multiset{old(heap[0])} + multiset{hit}
    {
      hide IsHeap, AtMost;
      var _ := Pop();
      Push(hit);
    }

    /** A full queue: the hit replaces the worst kept one, or is dropped. */
    method Offer(hit: Hit)
      requires 0 < size <= heap.Length && size == k <= |seen| && IsHeap(heap[..size])
      requires Keeps(multiset(heap[..size]), multiset(seen), k)
      modifies this`size, heap
      ensures size == old(size) && IsHeap(heap[..size])
      ensures Keeps(multiset(heap[..size]), multiset(seen) + multiset{hit}, k)
    {
      hide Keeps, IsHeap, AtMost, Below;
      AppendContents(seen, hit);
      FrontIsGreatest(heap[..size]);
      assert heap[..size][0] == heap[0];
      if Below(hit, heap[0]) {
        KeepsReplace(multiset(heap[..size]), multiset(seen), k, heap[0], hit);
        Replace(hit);
      } else {
        FrontRejects(heap[..size], hit);
        KeepsIgnore(multiset(heap[..size]), multiset(seen), k, hit);
      }
    }

    method Consider(hit: Hit)
      requires Valid() && k > 0
      modifies this, heap
      ensures Valid() && seen == old(seen) + [hit]
    {
      hide Keeps, IsHeap, AtMost, Below;
      AppendContents(seen, hit);
      if size < k {
        KeepsFill(multiset(heap[..size]), multiset(seen), k, hit);
        Push(hit);
      } else {
        Offer(hit);
      }
      seen := seen + [hit];
    }

    /** Pops from worst to best, filling the ranking from its last place. */
    method Drain() returns (ranked: seq<Hit>)
      requires Valid()
      modifies this`size, heap
      ensures ranked == TopK(seen, k)
    {
      hide IsHeap, Keeps, AtMost;
      ranked := [];
      ghost var kept := multiset(heap[..size]);
      while size > 0
        invariant size <= heap.Length && IsHeap(heap[..size])
        invariant DrainedTo(multiset(heap[..size]), ranked, kept)
      {
        ghost var left := multiset(heap[..size]);
        assert heap[0] in heap[..size];
        var top := Pop();
        DrainStep(left, ranked, kept, top);
        ranked := [top] + ranked;
      }
      assert heap[..size] == [];
      assert multiset(ranked) == kept;
      SortedKeepsIsTopK(ranked, seen, k);
    }
  }

  /** `ranked` holds, in order, everything that was popped after `left`. */
  ghost predicate DrainedTo(left: multiset<Hit>, ranked: seq<Hit>, kept: multiset<Hit>) {
    && left + multiset(ranked) == kept
    && Sorted(ranked)
    && forall x, y :: x in left && y in multiset(ranked) ==> AtMost(x, y)
  }

  lemma DrainStep(left: multiset<Hit>, ranked: seq<Hit>, kept: multiset<Hit>, top: Hit)
    requires DrainedTo(left, ranked, kept)
    requires top in left && forall x :: x in left ==> AtMost(x, top)
    ensures DrainedTo(left - multiset{top}, [top] + ranked, kept)
  {
    forall i | 0 <= i < |ranked| ensures AtMost(top, ranked[i]) {
      assert ranked[i] in multiset(ranked);
    }
  }
}

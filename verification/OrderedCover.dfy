// The hierarchy of aligned power-of-two segments over blocks, and the greedy
// cover of a block interval by such segments.

module OrderedCover {
  import opened Divisibility

  datatype Node = Node(first: nat, end: nat)

  /** A segment of the hierarchy: aligned, power-of-two width up to maxWidth. */
  ghost predicate InHierarchy(n: Node, blocks: nat, maxWidth: nat) {
    && n.first < n.end <= blocks
    && IsPow2(n.end - n.first) && n.end - n.first <= maxWidth
    && n.first % (n.end - n.first) == 0
  }

  /** Narrower than width, or of that width and starting before first. */
  predicate Listed(n: Node, width: nat, first: nat)
    requires n.first < n.end
  {
    n.end - n.first < width || (n.end - n.first == width && n.first < first)
  }

  /** all_nodes: every width, every aligned start. */
  method AllNodes(blocks: nat, maxWidth: nat) returns (nodes: seq<Node>)
    ensures forall n :: n in nodes <==> InHierarchy(n, blocks, maxWidth)
    ensures forall i, j :: 0 <= i < j < |nodes| ==> nodes[i] != nodes[j]
  {
    hide IsPow2;
    nodes := [];
    var width := 1;
    OneIsPow2();
    while width <= maxWidth
      invariant IsPow2(width)
      invariant forall n :: n in nodes <==> InHierarchy(n, blocks, maxWidth) && n.end - n.first < width
      invariant forall i, j :: 0 <= i < j < |nodes| ==> nodes[i] != nodes[j]
      decreases maxWidth + 1 - width
    {
      var first := 0;
      while first + width <= blocks
        invariant first % width == 0
        invariant forall n :: n in nodes <==> InHierarchy(n, blocks, maxWidth) && Listed(n, width, first)
        invariant forall i, j :: 0 <= i < j < |nodes| ==> nodes[i] != nodes[j]
        decreases blocks - first
      {
        NextAligned(first, width);
        assert forall i :: 0 <= i < |nodes| ==> nodes[i] in nodes;
        nodes := nodes + [Node(first, first + width)];
        first := first + width;
      }
      NextWidth(width);
      width := 2 * width;
    }
  }

  lemma OneIsPow2()
    ensures IsPow2(1) && forall w: nat :: IsPow2(w) ==> w >= 1
  {
  }

  /** After an aligned start the next aligned start is one width further. */
  lemma NextAligned(first: nat, width: nat)
    requires width > 0 && first % width == 0
    ensures (first + width) % width == 0
    ensures forall f: nat :: f % width == 0 && f < first + width ==> f <= first
  {
    AddDivisor(first, width);
    forall f: nat | f % width == 0 && first < f ensures first + width <= f {
      MultiplesApart(first, f, width);
    }
  }

  /** No power of two lies strictly between a power of two and its double. */
  lemma NextWidth(width: nat)
    requires IsPow2(width)
    ensures IsPow2(2 * width)
    ensures forall w: nat :: IsPow2(w) && w < 2 * width ==> w <= width
  {
    forall w: nat | IsPow2(w) && width < w ensures 2 * width <= w {
      Pow2Order(width, w);
    }
  }

  // --- Tilings ---

  /** One aligned segment of width w starting at first and ending by end. */
  ghost predicate Fits(first: nat, end: nat, w: nat) {
    IsPow2(w) && first % w == 0 && first + w <= end
  }

  /** Widths of consecutive aligned segments that cover [first, end) exactly. */
  ghost predicate Tiles(widths: seq<nat>, first: nat, end: nat)
    decreases |widths|
  {
    if widths == [] then first == end
    else Fits(first, end, widths[0]) && Tiles(widths[1..], first + widths[0], end)
  }

  /** The widest aligned segment that starts here. */
  ghost predicate Widest(first: nat, end: nat, w: nat) {
    Fits(first, end, w) && forall v: nat :: Fits(first, end, v) ==> v <= w
  }

  ghost predicate Greedy(widths: seq<nat>, first: nat, end: nat)
    decreases |widths|
  {
    if widths == [] then first >= end
    else Widest(first, end, widths[0]) && Greedy(widths[1..], first + widths[0], end)
  }

  lemma StopIsWidest(first: nat, end: nat, w: nat)
    requires Fits(first, end, w) && !(first % (2 * w) == 0 && first + 2 * w <= end)
    ensures Widest(first, end, w)
  {
    forall v: nat | Fits(first, end, v) ensures v <= w {
      if w < v {
        Pow2Order(w, v);
        DividesTrans(first, v, 2 * w);
      }
    }
  }

  function Total(widths: seq<nat>): nat {
    if widths == [] then 0 else widths[0] + Total(widths[1..])
  }

  lemma {:induction false} GreedyAppend(widths: seq<nat>, w: nat, first: nat, end: nat)
    requires GreedySoFar(widths, first, end) && Widest(first + Total(widths), end, w)
    ensures GreedySoFar(widths + [w], first, end)
    ensures Total(widths + [w]) == Total(widths) + w
    decreases |widths|
  {
    if widths != [] {
      GreedyAppend(widths[1..], w, first + widths[0], end);
      assert (widths + [w])[1..] == widths[1..] + [w];
    } else {
      assert ([w])[1..] == [];
    }
  }

  /** A greedy prefix: every chosen width was the widest at its place. */
  ghost predicate GreedySoFar(widths: seq<nat>, first: nat, end: nat)
    decreases |widths|
  {
    widths == [] || (Widest(first, end, widths[0]) && GreedySoFar(widths[1..], first + widths[0], end))
  }

  lemma {:induction false} GreedyDone(widths: seq<nat>, first: nat, end: nat)
    requires GreedySoFar(widths, first, end) && first + Total(widths) >= end
    ensures Greedy(widths, first, end)
    decreases |widths|
  {
    if widths != [] {
      GreedyDone(widths[1..], first + widths[0], end);
    }
  }

  /** cover: widen while aligned and in range, emit, advance. */
  method Cover(first: nat, end: nat) returns (widths: seq<nat>)
    ensures Greedy(widths, first, end)
  {
    widths := [];
    var at := first;
    while at < end
      invariant GreedySoFar(widths, first, end) && at == first + Total(widths)
      decreases end - at
    {
      var width := 1;
      while at % (2 * width) == 0 && at + 2 * width <= end
        invariant Fits(at, end, width)
        decreases end - width
      {
        NextWidth(width);
        width := 2 * width;
      }
      StopIsWidest(at, end, width);
      GreedyAppend(widths, width, first, end);
      widths := widths + [width];
      at := at + width;
    }
    GreedyDone(widths, first, end);
  }

  lemma {:induction false} GreedyTiles(widths: seq<nat>, first: nat, end: nat)
    requires Greedy(widths, first, end) && first <= end
    ensures Tiles(widths, first, end)
    decreases |widths|
  {
    if widths != [] {
      GreedyTiles(widths[1..], first + widths[0], end);
    }
  }

  // --- The greedy cover is as short as any ---

  /** Segments of another tiling that start inside the greedy segment end inside it. */
  lemma StaysInside(first: nat, at: nat, w: nat, v: nat)
    requires IsPow2(w) && IsPow2(v) && first % w == 0 && at % v == 0
    requires first < at < first + w || (at == first && v <= w)
    ensures at + v <= first + w
  {
    if v <= w {
      Pow2Divides(v, w);
      DividesTrans(first, w, v);
      DividesSum(first, w, v);
      MultiplesApart(at, first + w, v);
    } else {
      Pow2Divides(w, v);
      DividesTrans(at, v, w);
      MultiplesApart(first, at, w);
    }
  }

  /** Any tiling with no wider first segment splits at the end of the greedy one. */
  lemma {:induction false} SplitsAt(widths: seq<nat>, first: nat, at: nat, w: nat, end: nat) returns (n: nat)
    requires IsPow2(w) && first % w == 0 && first <= at < first + w <= end
    requires Tiles(widths, at, end) && widths != [] && (at == first ==> widths[0] <= w)
    ensures 0 < n <= |widths| && Tiles(widths[n..], first + w, end)
    decreases |widths|
  {
    StaysInside(first, at, w, widths[0]);
    var next := at + widths[0];
    if next == first + w {
      n := 1;
    } else {
      assert widths[1..] != [];
      var m := SplitsAt(widths[1..], first, next, w, end);
      n := m + 1;
      assert widths[1..][m..] == widths[n..];
    }
  }

  lemma {:induction false} GreedyIsShortest(widths: seq<nat>, other: seq<nat>, first: nat, end: nat)
    requires Greedy(widths, first, end) && Tiles(other, first, end)
    ensures |widths| <= |other|
    decreases |widths|
  {
    if widths != [] {
      var w := widths[0];
      assert other != [] && Fits(first, end, other[0]);
      var n := SplitsAt(other, first, first, w, end);
      GreedyIsShortest(widths[1..], other[n..], first + w, end);
    }
  }

  // --- At most two segments of each width ---

  function CountOf(widths: seq<nat>, w: nat): nat {
    if widths == [] then 0 else CountOf(widths[1..], w) + if widths[0] == w then 1 else 0
  }

  /** Closer to the end than an aligned width: widths fall, each used at most once. */
  lemma {:induction false} FallingWidths(widths: seq<nat>, first: nat, end: nat, bound: nat, w: nat)
    requires Greedy(widths, first, end) && IsPow2(bound) && first % bound == 0 && first <= end < first + bound
    ensures CountOf(widths, w) <= 1 && (w >= bound ==> CountOf(widths, w) == 0)
    decreases |widths|
  {
    if widths != [] {
      var g := widths[0];
      assert g < bound;
      NoDouble(first, end, g, bound);
      AddDivisor(first, g);
      FallingWidths(widths[1..], first + g, end, g, w);
    }
  }

  /** The widest segment below an aligned bound leaves less than its own width. */
  lemma NoDouble(first: nat, end: nat, g: nat, bound: nat)
    requires Widest(first, end, g) && IsPow2(bound) && g < bound && first % bound == 0
    ensures end < first + 2 * g
  {
    Pow2Order(g, bound);
    NextWidth(g);
    DividesTrans(first, bound, 2 * g);
    assert !Fits(first, end, 2 * g);
  }

  /** From an aligned start each width occurs at most twice, smaller ones once. */
  lemma {:induction false} RisingWidths(widths: seq<nat>, first: nat, end: nat, base: nat, w: nat)
    requires Greedy(widths, first, end) && first <= end && IsPow2(base) && first % base == 0
    ensures CountOf(widths, w) <= 2 && (w < base ==> CountOf(widths, w) <= 1)
    decreases |widths|
  {
    if end < first + base {
      FallingWidths(widths, first, end, base, w);
    } else if widths != [] {
      var g := widths[0];
      assert Fits(first, end, base);
      AddDivisor(first, g);
      if first % (2 * g) == 0 {
        NextWidth(g);
        assert !Fits(first, end, 2 * g);
        FallingWidths(widths[1..], first + g, end, g, w);
      } else {
        NextWidth(g);
        OddMultiple(first, g);
        RisingWidths(widths[1..], first + g, end, 2 * g, w);
      }
    }
  }

  /** An odd multiple of g plus g is a multiple of 2g. */
  lemma OddMultiple(first: nat, g: nat)
    requires g > 0 && first % g == 0 && first % (2 * g) != 0
    ensures (first + g) % (2 * g) == 0
  {
    var q := first / g;
    assert first == g * q;
    HalveMultiple(g, q);
    if q % 2 == 0 {
      MultipleHasNoRemainder(2 * g, q / 2);
    } else {
      MultipleHasNoRemainder(2 * g, (q + 1) / 2);
    }
  }

  lemma HalveMultiple(g: nat, q: nat)
    ensures q % 2 == 0 ==> g * q == (2 * g) * (q / 2)
    ensures q % 2 == 1 ==> g * q + g == (2 * g) * ((q + 1) / 2)
  {
    var h := (q + 1) / 2;
    assert (2 * g) * h == g * (2 * h);
  }

  lemma AtMostTwoOfEachWidth(widths: seq<nat>, first: nat, end: nat, w: nat)
    requires Greedy(widths, first, end) && first <= end
    ensures CountOf(widths, w) <= 2
  {
    RisingWidths(widths, first, end, 1, w);
  }
}

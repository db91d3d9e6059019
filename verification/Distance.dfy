// Squared byte distances: the scalar loop and the AVX2 kernels, lane by lane.
// Registers are sequences of lanes; 16-bit differences and 32-bit sums wrap
// exactly as the instructions do.

module Distance {

  type Byte = x: int | 0 <= x < 256

  const DIM: nat := 128
  const BLOCK: nat := 32

  function Diff(q: seq<Byte>, v: seq<Byte>, t: nat): (d: int)
    requires |q| == |v| && t < |q|
    ensures -255 <= d <= 255
  {
    v[t] as int - q[t] as int
  }

  function Term(q: seq<Byte>, v: seq<Byte>, t: nat): (r: nat)
    requires |q| == |v| && t < |q|
    ensures r <= 65025
  {
    var d := Diff(q, v, t);
    Squared(d);
    d * d
  }

  /** The mathematical squared distance over coordinates [i, j). */
  function L2(q: seq<Byte>, v: seq<Byte>, i: nat, j: nat): (r: nat)
    requires |q| == |v| && i <= j <= |q|
    ensures r <= 65025 * (j - i)
    decreases q, j
  {
    if i == j then 0 else L2(q, v, i, j - 1) + Term(q, v, j - 1)
  }

  lemma Product(a: nat, b: nat)
    ensures a * b >= 0
  {
  }

  lemma Squared(d: int)
    requires -255 <= d <= 255
    ensures 0 <= d * d <= 65025
  {
    Product(255 - d, 255 + d);
    assert (255 - d) * (255 + d) == 65025 - d * d;
    if d >= 0 { Product(d, d); } else { Product(-d, -d); }
  }

  lemma {:induction false} L2Split(q: seq<Byte>, v: seq<Byte>, i: nat, m: nat, j: nat)
    requires |q| == |v| && i <= m <= j <= |q|
    ensures L2(q, v, i, j) == L2(q, v, i, m) + L2(q, v, m, j)
    decreases j
  {
    if m < j {
      L2Split(q, v, i, m, j - 1);
    }
  }

  // --- 16- and 32-bit lanes ---

  function Wrap32(x: int): nat {
    x % 0x1_0000_0000
  }

  /** _mm256_sub_epi16 on one lane. */
  function Sub16(x: int, y: int): int {
    (x - y + 0x8000) % 0x1_0000 - 0x8000
  }

  function Plus(x: int, y: int): nat {
    Wrap32(x + y)
  }

  type Lanes = s: seq<int> | |s| == 8 witness [0, 0, 0, 0, 0, 0, 0, 0]

  const ZERO: Lanes := [0, 0, 0, 0, 0, 0, 0, 0]

  /** Sixteen widened byte differences starting at `at`. */
  function Delta(q: seq<Byte>, v: seq<Byte>, at: nat): (d: seq<int>)
    requires |q| == |v| && at + 16 <= |q|
    ensures |d| == 16
  {
    seq(16, t requires 0 <= t < 16 => Sub16(v[at + t] as int, q[at + t] as int))
  }

  /** _mm256_madd_epi16(d, d): squares of neighbours, added in 32 bits. */
  function MaddSelf(d: seq<int>): Lanes
    requires |d| == 16
  {
    seq(8, l requires 0 <= l < 8 => Wrap32(d[2 * l] * d[2 * l] + d[2 * l + 1] * d[2 * l + 1]))
  }

  /** _mm256_add_epi32. */
  function AddLanes(a: Lanes, b: Lanes): Lanes {
    seq(8, l requires 0 <= l < 8 => Plus(a[l], b[l]))
  }

  /** _mm256_hadd_epi32: neighbours added within each 128-bit half. */
  function HorizontalAdd(a: Lanes, b: Lanes): Lanes {
    [Plus(a[0], a[1]), Plus(a[2], a[3]), Plus(b[0], b[1]), Plus(b[2], b[3]),
     Plus(a[4], a[5]), Plus(a[6], a[7]), Plus(b[4], b[5]), Plus(b[6], b[7])]
  }

  /** The low and high 128-bit halves added lane by lane. */
  function AddHalves(a: Lanes): (s: seq<int>)
    ensures |s| == 4
  {
    [Plus(a[0], a[4]), Plus(a[1], a[5]), Plus(a[2], a[6]), Plus(a[3], a[7])]
  }

  /** Halves added, then two 128-bit horizontal adds; lane 0 is the result. */
  function ReduceOne(a: Lanes): nat {
    var s := AddHalves(a);
    var once := [Plus(s[0], s[1]), Plus(s[2], s[3])];
    Plus(once[0], once[1])
  }

  /** The shuffle of x3_reduce_four: four registers reduced side by side. */
  function ReduceFour(a: Lanes, b: Lanes, c: Lanes, d: Lanes): (s: seq<int>)
    ensures |s| == 4
  {
    AddHalves(HorizontalAdd(HorizontalAdd(a, b), HorizontalAdd(c, d)))
  }

  /** x3_squared_block: one 32-byte block of squared differences in eight lanes. */
  function SquaredBlock(q: seq<Byte>, v: seq<Byte>, at: nat): Lanes
    requires |q| == |v| && at + BLOCK <= |q|
  {
    AddLanes(MaddSelf(Delta(q, v, at)), MaddSelf(Delta(q, v, at + 16)))
  }

  function LaneTotal(a: Lanes): int {
    a[0] + a[1] + a[2] + a[3] + a[4] + a[5] + a[6] + a[7]
  }

  lemma PlusWraps(x: int, y: int)
    ensures Plus(Wrap32(x), Wrap32(y)) == Wrap32(x + y)
    ensures Plus(Wrap32(x), y) == Wrap32(x + y)
  {
  }

  lemma ReduceOneIsTotal(a: Lanes)
    ensures ReduceOne(a) == Wrap32(LaneTotal(a))
  {
    PlusWraps(a[0] + a[4], a[1] + a[5]);
    PlusWraps(a[2] + a[6], a[3] + a[7]);
    PlusWraps(a[0] + a[4] + a[1] + a[5], a[2] + a[6] + a[3] + a[7]);
  }

  lemma HorizontalSum(a: Lanes, b: Lanes, h: nat)
    requires h == 0 || h == 4
    ensures var ab := HorizontalAdd(a, b);
      Plus(ab[h], ab[h + 1]) == Wrap32(a[h] + a[h + 1] + a[h + 2] + a[h + 3]) &&
      Plus(ab[h + 2], ab[h + 3]) == Wrap32(b[h] + b[h + 1] + b[h + 2] + b[h + 3])
  {
    PlusWraps(a[h] + a[h + 1], a[h + 2] + a[h + 3]);
    PlusWraps(b[h] + b[h + 1], b[h + 2] + b[h + 3]);
  }

  lemma HalvesSum(a: Lanes, b: Lanes, c: Lanes, d: Lanes, h: nat)
    requires h == 0 || h == 4
    ensures var r := HorizontalAdd(HorizontalAdd(a, b), HorizontalAdd(c, d));
      && r[h] == Wrap32(a[h] + a[h + 1] + a[h + 2] + a[h + 3])
      && r[h + 1] == Wrap32(b[h] + b[h + 1] + b[h + 2] + b[h + 3])
      && r[h + 2] == Wrap32(c[h] + c[h + 1] + c[h + 2] + c[h + 3])
      && r[h + 3] == Wrap32(d[h] + d[h + 1] + d[h + 2] + d[h + 3])
  {
    HorizontalSum(a, b, h);
    HorizontalSum(c, d, h);
  }

  lemma ReduceFourIsTotals(a: Lanes, b: Lanes, c: Lanes, d: Lanes)
    ensures ReduceFour(a, b, c, d)
         == [Wrap32(LaneTotal(a)), Wrap32(LaneTotal(b)), Wrap32(LaneTotal(c)), Wrap32(LaneTotal(d))]
  {
    hide HorizontalAdd, Wrap32, Plus;
    HalvesSum(a, b, c, d, 0);
    HalvesSum(a, b, c, d, 4);
    PlusWraps(a[0] + a[1] + a[2] + a[3], a[4] + a[5] + a[6] + a[7]);
    PlusWraps(b[0] + b[1] + b[2] + b[3], b[4] + b[5] + b[6] + b[7]);
    PlusWraps(c[0] + c[1] + c[2] + c[3], c[4] + c[5] + c[6] + c[7]);
    PlusWraps(d[0] + d[1] + d[2] + d[3], d[4] + d[5] + d[6] + d[7]);
  }

  /** No 16-bit difference and no 32-bit pair sum overflows. */
  lemma MaddLane(q: seq<Byte>, v: seq<Byte>, at: nat, l: nat)
    requires |q| == |v| && at + 16 <= |q| && l < 8
    ensures MaddSelf(Delta(q, v, at))[l] == L2(q, v, at + 2 * l, at + 2 * l + 2) <= 130050
  {
    var i := at + 2 * l;
    var x, y := Diff(q, v, i), Diff(q, v, i + 1);
    assert Delta(q, v, at)[2 * l] == Sub16(v[i] as int, q[i] as int) == x;
    assert Delta(q, v, at)[2 * l + 1] == Sub16(v[i + 1] as int, q[i + 1] as int) == y;
    Squared(x);
    Squared(y);
    assert L2(q, v, i, i + 2) == L2(q, v, i, i + 1) + Term(q, v, i + 1);
    assert L2(q, v, i, i + 1) == L2(q, v, i, i) + Term(q, v, i);
  }

  lemma MaddTotal(q: seq<Byte>, v: seq<Byte>, at: nat)
    requires |q| == |v| && at + 16 <= |q|
    ensures LaneTotal(MaddSelf(Delta(q, v, at))) == L2(q, v, at, at + 16)
  {
    forall l: nat | l < 8
      ensures MaddSelf(Delta(q, v, at))[l] == L2(q, v, at, at + 2 * l + 2) - L2(q, v, at, at + 2 * l)
    {
      MaddLane(q, v, at, l);
      L2Split(q, v, at, at + 2 * l, at + 2 * l + 2);
    }
  }

  // --- Registers as sums modulo 2^32 ---

  /** Register a carries the number n, modulo 2^32. */
  ghost predicate Carries(a: Lanes, n: int) {
    Wrap32(LaneTotal(a)) == Wrap32(n)
  }

  lemma CarriedTotal(a: Lanes, n: nat)
    requires Carries(a, n) && n < 0x1_0000_0000
    ensures Wrap32(LaneTotal(a)) == n
  {
  }

  lemma ReduceCarried(a: Lanes, n: nat)
    requires Carries(a, n) && n < 0x1_0000_0000
    ensures ReduceOne(a) == n
  {
    ReduceOneIsTotal(a);
  }

  lemma AddLanesTotal(a: Lanes, b: Lanes)
    ensures Wrap32(LaneTotal(AddLanes(a, b))) == Wrap32(LaneTotal(a) + LaneTotal(b))
  {
  }

  lemma AddCarries(a: Lanes, m: int, b: Lanes, n: int)
    requires Carries(a, m) && Carries(b, n)
    ensures Carries(AddLanes(a, b), m + n)
  {
    AddLanesTotal(a, b);
    PlusWraps(LaneTotal(a), LaneTotal(b));
    PlusWraps(m, n);
  }

  lemma BlockCarries(q: seq<Byte>, v: seq<Byte>, at: nat)
    requires |q| == |v| && at + BLOCK <= |q|
    ensures Carries(SquaredBlock(q, v, at), L2(q, v, at, at + BLOCK))
  {
    MaddTotal(q, v, at);
    MaddTotal(q, v, at + 16);
    L2Split(q, v, at, at + 16, at + BLOCK);
    AddCarries(MaddSelf(Delta(q, v, at)), L2(q, v, at, at + 16),
               MaddSelf(Delta(q, v, at + 16)), L2(q, v, at + 16, at + BLOCK));
  }

  lemma Accumulate(a: Lanes, q: seq<Byte>, v: seq<Byte>, i: nat, at: nat)
    requires |q| == |v| && i <= at && at + BLOCK <= |q| && Carries(a, L2(q, v, i, at))
    ensures Carries(AddLanes(a, SquaredBlock(q, v, at)), L2(q, v, i, at + BLOCK))
  {
    BlockCarries(q, v, at);
    L2Split(q, v, i, at, at + BLOCK);
    AddCarries(a, L2(q, v, i, at), SquaredBlock(q, v, at), L2(q, v, at, at + BLOCK));
  }
}

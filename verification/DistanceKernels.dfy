// The distance kernels themselves.  Each is proved equal to the mathematical
// squared distance, reduced modulo 2^32 only where the dimension is arbitrary.

module DistanceKernels {
  import opened Distance

  type Vector = s: seq<Byte> | |s| == DIM witness seq(DIM, _ => 0)

  function SquaredL2(q: Vector, v: Vector): (r: nat)
    ensures r <= 8323200
  {
    L2(q, v, 0, DIM)
  }

  /** At this dimension no distance reaches 2^32. */
  lemma Unwrapped(q: Vector, v: Vector)
    ensures Wrap32(L2(q, v, 0, |q|)) == SquaredL2(q, v)
  {
  }

  /** The uint32 loop of the scalar reference, for any dimension. */
  method ScalarDistance(q: seq<Byte>, v: seq<Byte>) returns (distance: nat)
    requires |q| == |v|
    ensures distance == Wrap32(L2(q, v, 0, |q|))
  {
    distance := 0;
    for t := 0 to |q|
      invariant distance == Wrap32(L2(q, v, 0, t))
    {
      PlusWraps(L2(q, v, 0, t), Term(q, v, t));
      distance := Plus(distance, Diff(q, v, t) * Diff(q, v, t));
    }
  }

  /** l2_sq_uint8_avx2_four: refuses dimensions that are not whole blocks. */
  method FourDistances(q: seq<Byte>, vectors: seq<seq<Byte>>) returns (ok: bool, distances: seq<int>)
    requires |vectors| == 4 && forall lane :: 0 <= lane < 4 ==> |vectors[lane]| == |q|
    ensures ok <==> |q| > 0 && |q| % BLOCK == 0
    ensures ok ==> |distances| == 4
    ensures ok ==> forall lane :: 0 <= lane < 4 ==> distances[lane] == Wrap32(L2(q, vectors[lane], 0, |q|))
  {
    hide AddLanes, SquaredBlock, ReduceOne, LaneTotal;
    if |q| == 0 || |q| % BLOCK != 0 {
      return false, [];
    }
    ZeroCarries();
    var accumulators := [ZERO, ZERO, ZERO, ZERO];
    var offset := 0;
    while offset < |q|
      invariant 0 <= offset <= |q| && offset % BLOCK == 0 && |accumulators| == 4
      invariant forall lane :: 0 <= lane < 4 ==> Carries(accumulators[lane], L2(q, vectors[lane], 0, offset))
    {
      ghost var before := accumulators;
      for lane := 0 to 4
        invariant |accumulators| == 4
        invariant forall l :: 0 <= l < lane ==> Carries(accumulators[l], L2(q, vectors[l], 0, offset + BLOCK))
        invariant forall l :: lane <= l < 4 ==> accumulators[l] == before[l]
      {
        Accumulate(accumulators[lane], q, vectors[lane], 0, offset);
        var next := AddLanes(accumulators[lane], SquaredBlock(q, vectors[lane], offset));
        accumulators := accumulators[lane := next];
      }
      offset := offset + BLOCK;
    }
    forall lane | 0 <= lane < 4
      ensures ReduceOne(accumulators[lane]) == Wrap32(L2(q, vectors[lane], 0, |q|))
    {
      ReduceOneIsTotal(accumulators[lane]);
    }
    return true, seq(4, lane requires 0 <= lane < 4 => ReduceOne(accumulators[lane]));
  }

  /** One block added as its two 16-byte halves. */
  function AccumulateHalves(a: Lanes, q: seq<Byte>, v: seq<Byte>, at: nat): Lanes
    requires |q| == |v| && at + BLOCK <= |q|
  {
    AddLanes(AddLanes(a, MaddSelf(Delta(q, v, at))), MaddSelf(Delta(q, v, at + 16)))
  }

  lemma HalvesCarry(a: Lanes, n: int, q: seq<Byte>, v: seq<Byte>, at: nat)
    requires |q| == |v| && at + BLOCK <= |q| && Carries(a, n)
    ensures Carries(AccumulateHalves(a, q, v, at), n + L2(q, v, at, at + BLOCK))
  {
    var lo, hi := MaddSelf(Delta(q, v, at)), MaddSelf(Delta(q, v, at + 16));
    MaddTotal(q, v, at);
    MaddTotal(q, v, at + 16);
    L2Split(q, v, at, at + 16, at + BLOCK);
    AddCarries(a, n, lo, LaneTotal(lo));
    AddCarries(AddLanes(a, lo), n + LaneTotal(lo), hi, LaneTotal(hi));
  }

  /** l2_sq_uint8_avx2: two accumulators take alternate blocks. */
  method OneDistance(q: Vector, v: Vector) returns (distance: nat)
    ensures distance == SquaredL2(q, v)
  {
    hide AddLanes, SquaredBlock, Carries, ReduceOne, MaddSelf, AccumulateHalves;
    assert Carries(ZERO, 0) by { ZeroCarries(); }
    var a0 := AccumulateHalves(ZERO, q, v, 0);
    HalvesCarry(ZERO, 0, q, v, 0);
    var a1 := AccumulateHalves(ZERO, q, v, 32);
    HalvesCarry(ZERO, 0, q, v, 32);
    HalvesCarry(a0, L2(q, v, 0, 32), q, v, 64);
    a0 := AccumulateHalves(a0, q, v, 64);
    HalvesCarry(a1, L2(q, v, 32, 64), q, v, 96);
    a1 := AccumulateHalves(a1, q, v, 96);
    AddCarries(a0, L2(q, v, 0, 32) + L2(q, v, 64, 96), a1, L2(q, v, 32, 64) + L2(q, v, 96, 128));
    L2Split(q, v, 0, 32, 128);
    L2Split(q, v, 32, 64, 128);
    L2Split(q, v, 64, 96, 128);
    ReduceCarried(AddLanes(a0, a1), SquaredL2(q, v));
    distance := ReduceOne(AddLanes(a0, a1));
  }

  lemma ZeroCarries()
    ensures Carries(ZERO, 0)
  {
  }

  /** Half of a distance: the two blocks starting at `firstBlock`. */
  function Half(q: Vector, v: Vector, firstBlock: nat): nat
    requires firstBlock == 0 || firstBlock == 2
  {
    L2(q, v, 32 * firstBlock, 32 * firstBlock + 64)
  }

  lemma PrefixPlusSuffix(q: Vector, v: Vector)
    ensures Half(q, v, 0) + Half(q, v, 2) == SquaredL2(q, v)
  {
    L2Split(q, v, 0, 64, 128);
  }

  /** x3_half_four: one half of four candidates, reduced side by side. */
  method HalfFour(q: Vector, firstBlock: nat, candidates: seq<Vector>) returns (out: seq<int>)
    requires firstBlock == 0 || firstBlock == 2
    requires |candidates| == 4
    ensures out == seq(4, lane requires 0 <= lane < 4 => Half(q, candidates[lane], firstBlock))
  {
    hide AddLanes, SquaredBlock, Carries, ReduceFour;
    var sums: seq<Lanes> := [ZERO, ZERO, ZERO, ZERO];
    ZeroCarries();
    for block := firstBlock to firstBlock + 2
      invariant |sums| == 4
      invariant forall l :: 0 <= l < 4 ==> Carries(sums[l], L2(q, candidates[l], 32 * firstBlock, 32 * block))
    {
      forall l | 0 <= l < 4
        ensures Carries(AddLanes(sums[l], SquaredBlock(q, candidates[l], 32 * block)),
                        L2(q, candidates[l], 32 * firstBlock, 32 * block + 32))
      {
        Accumulate(sums[l], q, candidates[l], 32 * firstBlock, 32 * block);
      }
      sums := seq(4, l requires 0 <= l < 4 && |sums| == 4 =>
        AddLanes(sums[l], SquaredBlock(q, candidates[l], 32 * block)));
    }
    forall l | 0 <= l < 4
      ensures Wrap32(LaneTotal(sums[l])) == Half(q, candidates[l], firstBlock)
    {
      CarriedTotal(sums[l], Half(q, candidates[l], firstBlock));
    }
    ReduceFourIsTotals(sums[0], sums[1], sums[2], sums[3]);
    out := ReduceFour(sums[0], sums[1], sums[2], sums[3]);
  }

  /** x3_half_one. */
  method HalfOne(q: Vector, firstBlock: nat, candidate: Vector) returns (out: int)
    requires firstBlock == 0 || firstBlock == 2
    ensures out == Half(q, candidate, firstBlock)
  {
    hide AddLanes, SquaredBlock, Carries, ReduceOne;
    var at := 32 * firstBlock;
    BlockCarries(q, candidate, at);
    Accumulate(SquaredBlock(q, candidate, at), q, candidate, at, at + 32);
    var sum := AddLanes(SquaredBlock(q, candidate, at), SquaredBlock(q, candidate, at + 32));
    ReduceCarried(sum, Half(q, candidate, firstBlock));
    out := ReduceOne(sum);
  }
}

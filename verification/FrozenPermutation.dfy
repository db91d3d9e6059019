// Unbiased bounded draws by rejection, and the in-place shuffle they drive.

module FrozenPermutation {
  import opened Divisibility
  import opened Options
  import opened SplitMix

  // --- Bounded draws ---

  /** (0 - bound) mod 2^64 mod bound. */
  function Threshold(bound: nat): (t: nat)
    requires 0 < bound < WORD
    ensures t < bound
  {
    (0 - bound) % WORD % bound
  }

  /** A state whose value is never rejected: the largest word. */
  function Target(): nat {
    Unmix(WORD - 1)
  }

  /** The draw, and the state behind it: the loop ends because the target comes at the latest. */
  function Draw(state: nat, bound: nat): (r: (nat, nat))
    requires state < WORD && 0 < bound < WORD
    ensures r.0 < bound && r.1 < WORD
    decreases if state == Target() then WORD else Steps(state, Target())
  {
    var next := Advance(state);
    var value := Mix(next);
    if value >= Threshold(bound) then (value % bound, next)
    else
      DrawTerminates(state, bound);
      Draw(next, bound)
  }

  lemma DrawTerminates(state: nat, bound: nat)
    requires state < WORD && 0 < bound < WORD && Mix(Advance(state)) < Threshold(bound)
    ensures Advance(state) != Target()
    ensures var m := (s: nat) => if s == Target() then WORD else Steps(s, Target());
      m(Advance(state)) < m(state)
  {
    hide Mix, Unmix;
    MixIsBijective(WORD - 1);
    if state != Target() {
      OneStepCloser(state, Target());
    }
  }

  method BoundedDraw(state: nat, bound: nat) returns (draw: Option<nat>, next: nat)
    requires state < WORD && bound < WORD
    ensures draw.None? <==> bound == 0
    ensures draw.Some? ==> (draw.value, next) == Draw(state, bound)
  {
    hide Mix, Unmix, Steps, Advance;
    next := state;
    if bound == 0 {
      return None, state;
    }
    var threshold := Threshold(bound);
    while true
      invariant next < WORD && Draw(next, bound) == Draw(state, bound)
      decreases if next == Target() then WORD else Steps(next, Target())
    {
      ghost var before := next;
      next := Advance(next);
      var value := Mix(next);
      if value >= threshold {
        return Some(value % bound), next;
      }
      DrawTerminates(before, bound);
    }
  }

  /** The value behind one advance. */
  function NextValue(state: nat): (v: nat)
    ensures v < WORD
  {
    Mix(Advance(state))
  }

  /** The draw is the first accepted value along the generator's states, modulo the
      bound, and the state behind it is the one that gave that value. */
  lemma {:induction false} DrawIsFirstAccepted(state: nat, bound: nat) returns (n: nat)
    requires state < WORD && 0 < bound < WORD
    ensures forall i: nat :: i < n ==> NextValue(AdvanceBy(state, i)) < Threshold(bound)
    ensures NextValue(AdvanceBy(state, n)) >= Threshold(bound)
    ensures Draw(state, bound) == (NextValue(AdvanceBy(state, n)) % bound, AdvanceBy(state, n + 1))
    decreases if state == Target() then WORD else Steps(state, Target())
  {
    hide Mix, Unmix, Threshold, Steps, Advance;
    AdvanceOnce(state);
    if NextValue(state) >= Threshold(bound) {
      n := 0;
    } else {
      DrawTerminates(state, bound);
      var later := DrawIsFirstAccepted(Advance(state), bound);
      n := later + 1;
      forall i: nat | i < n ensures NextValue(AdvanceBy(state, i)) < Threshold(bound) {
        if i > 0 {
          assert AdvanceBy(state, i) == AdvanceBy(Advance(state), i - 1);
        }
      }
      assert AdvanceBy(state, n) == AdvanceBy(Advance(state), later);
      assert AdvanceBy(state, n + 1) == AdvanceBy(Advance(state), later + 1);
    }
  }

  lemma AdvanceOnce(state: nat)
    ensures AdvanceBy(state, 0) == state && AdvanceBy(state, 1) == Advance(state)
  {
  }

  // --- Fairness ---

  /** The accepted words of residue r. */
  ghost function Accepted(bound: nat, r: nat): set<nat>
    requires 0 < bound < WORD
  {
    set v: nat | Threshold(bound) <= v < WORD && v % bound == r
  }

  ghost function Window(lo: nat, blocks: nat, bound: nat, r: nat): set<nat>
    requires bound > 0
  {
    set v: nat | lo <= v < lo + blocks * bound && v % bound == r
  }

  lemma DivMod(x: nat, bound: nat) returns (q: nat, e: nat)
    requires bound > 0
    ensures x == q * bound + e && e == x % bound && q == x / bound
  {
    q, e := x / bound, x % bound;
  }

  lemma Remainder(q: nat, bound: nat, r: nat)
    requires r < bound
    ensures (q * bound + r) % bound == r
  {
    var d, e := DivMod(q * bound + r, bound);
    NextMultiple(bound, q, d);
    NextMultiple(bound, d, q);
  }

  lemma SameBlock(v: nat, w: nat, bound: nat)
    requires bound > 0 && v % bound == w % bound && v < w + bound && w < v + bound
    ensures v == w
  {
    var q, e := DivMod(v, bound);
    var d, f := DivMod(w, bound);
    NextMultiple(bound, q, d);
    NextMultiple(bound, d, q);
  }

  /** One block of consecutive numbers holds each residue once. */
  lemma OneInABlock(lo: nat, bound: nat, r: nat) returns (v: nat)
    requires r < bound
    ensures lo <= v < lo + bound && v % bound == r
    ensures forall w: nat :: lo <= w < lo + bound && w % bound == r ==> w == v
  {
    var q, e := DivMod(lo, bound);
    Remainder(q, bound, r);
    Remainder(q + 1, bound, r);
    v := if e <= r then q * bound + r else (q + 1) * bound + r;
    assert (q + 1) * bound == q * bound + bound;
    forall w: nat | lo <= w < lo + bound && w % bound == r ensures w == v {
      SameBlock(v, w, bound);
    }
  }

  lemma {:induction false} WindowHolds(lo: nat, blocks: nat, bound: nat, r: nat)
    requires r < bound
    ensures |Window(lo, blocks, bound, r)| == blocks
    decreases blocks
  {
    if blocks == 0 {
      assert Window(lo, 0, bound, r) == {};
    } else {
      WindowHolds(lo, blocks - 1, bound, r);
      var last := lo + (blocks - 1) * bound;
      assert lo + blocks * bound == last + bound;
      var v := OneInABlock(last, bound, r);
      assert Window(lo, blocks, bound, r) == Window(lo, blocks - 1, bound, r) + {v};
    }
  }

  /** Every residue has the same number of accepted words: the words divided by the bound, rounded down. */
  lemma EveryResidueIsEquallyLikely(bound: nat, r: nat)
    requires 0 < bound < WORD && r < bound
    ensures |Accepted(bound, r)| == WORD / bound
  {
    var q, t := DivMod(WORD, bound);
    ThresholdIsRemainder(bound);
    assert t + q * bound == WORD;
    WindowHolds(t, q, bound, r);
    assert Accepted(bound, r) == Window(t, q, bound, r);
  }

  lemma ThresholdIsRemainder(bound: nat)
    requires 0 < bound < WORD
    ensures Threshold(bound) == WORD % bound
  {
    assert (0 - bound) % WORD == WORD - bound;
    var q, e := DivMod(WORD, bound);
    assert q > 0;
    assert (q - 1) * bound == q * bound - bound;
    Remainder(q - 1, bound, e);
  }

  /** The states whose next value is accepted with residue r. */
  ghost function StatesFor(bound: nat, r: nat): set<nat>
    requires 0 < bound < WORD
  {
    set s: nat | s < WORD && NextValue(s) in Accepted(bound, r)
  }

  function StateBefore(value: nat): (s: nat)
    requires value < WORD
    ensures s < WORD
  {
    (Unmix(value) + WORD - GAMMA) % WORD
  }

  lemma NextValueIsBijective(x: nat)
    requires x < WORD
    ensures StateBefore(NextValue(x)) == x && NextValue(StateBefore(x)) == x
  {
    hide Mix, Unmix;
    MixIsBijective(Advance(x));
    MixIsBijective(x);
    assert (Advance(x) + WORD - GAMMA) % WORD == x;
    assert Advance(StateBefore(x)) == Unmix(x);
  }

  lemma SameSize(a: set<nat>, b: set<nat>, f: nat -> nat)
    requires forall x :: x in a ==> f(x) in b
    requires forall x, y :: x in a && y in a && x != y ==> f(x) != f(y)
    requires forall y :: y in b ==> exists x :: x in a && f(x) == y
    ensures |a| == |b|
    decreases a
  {
    if x :| x in a {
      SameSize(a - {x}, b - {f(x)}, f);
    } else {
      assert b == {};
    }
  }

  /** Over the generator's whole period every residue is drawn equally often. */
  lemma EveryResidueIsDrawnEquallyOften(bound: nat, r: nat)
    requires 0 < bound < WORD && r < bound
    ensures |StatesFor(bound, r)| == WORD / bound
  {
    hide NextValue, StateBefore, Accepted;
    var states, values := StatesFor(bound, r), Accepted(bound, r);
    forall x, y | x in states && y in states && x != y ensures NextValue(x) != NextValue(y) {
      NextValueIsBijective(x);
      NextValueIsBijective(y);
    }
    forall v | v in values ensures exists s :: s in states && NextValue(s) == v {
      AcceptedAreWords(bound, r, v);
      NextValueIsBijective(v);
      assert StateBefore(v) in states;
    }
    SameSize(states, values, NextValue);
    EveryResidueIsEquallyLikely(bound, r);
  }

  lemma AcceptedAreWords(bound: nat, r: nat, v: nat)
    requires 0 < bound < WORD && v in Accepted(bound, r)
    ensures v < WORD
  {
  }

  // --- The shuffle ---

  predicate ValidDraws(draws: seq<nat>, remaining: nat) {
    (remaining <= 1 ==> draws == []) && (remaining > 1 ==> |draws| == remaining - 1)
    && forall i :: 0 <= i < |draws| ==> draws[i] < remaining - i
  }

  /** Swapping the last open place with the drawn one, for ever fewer open places. */
  function Shuffle(a: seq<nat>, draws: seq<nat>): seq<nat>
    requires draws == [] || |draws| < |a|
    requires ValidDraws(draws, |draws| + 1)
    decreases draws
  {
    if draws == [] then a
    else
      var last := |draws|;
      Shuffle(Swap(a, last, draws[0]), draws[1..])
  }

  function Swap(a: seq<nat>, i: nat, j: nat): (b: seq<nat>)
    requires i < |a| && j < |a|
    ensures |b| == |a|
  {
    a[i := a[j]][j := a[i]]
  }

  function Identity(count: nat): (s: seq<nat>)
    ensures |s| == count
  {
    seq(count, i => i)
  }

  /** The draws the generator makes for `remaining` open places. */
  function DrawsFrom(state: nat, remaining: nat): (draws: seq<nat>)
    requires state < WORD && remaining < WORD
    ensures ValidDraws(draws, remaining)
    decreases remaining
  {
    if remaining <= 1 then []
    else
      var (value, next) := Draw(state, remaining);
      [value] + DrawsFrom(next, remaining - 1)
  }

  function Frozen(count: nat, seed: nat): seq<nat>
    requires seed < WORD && count < WORD
  {
    Shuffle(Identity(count), DrawsFrom(seed, count))
  }

  lemma SwapKeeps(a: seq<nat>, i: nat, j: nat)
    requires i < |a| && j < |a|
    ensures multiset(Swap(a, i, j)) == multiset(a)
  {
  }

  lemma {:induction false} ShuffleKeeps(a: seq<nat>, draws: seq<nat>)
    requires ValidDraws(draws, |draws| + 1) && (draws == [] || |draws| < |a|)
    ensures multiset(Shuffle(a, draws)) == multiset(a) && |Shuffle(a, draws)| == |a|
    ensures forall i :: |draws| < i < |a| ==> Shuffle(a, draws)[i] == a[i]
    decreases draws
  {
    if draws != [] {
      SwapKeeps(a, |draws|, draws[0]);
      ShuffleKeeps(Swap(a, |draws|, draws[0]), draws[1..]);
    }
  }

  /** The frozen order is a permutation of the rows, for every count and seed. */
  lemma FrozenIsPermutation(count: nat, seed: nat)
    requires seed < WORD && count < WORD
    ensures |Frozen(count, seed)| == count && multiset(Frozen(count, seed)) == multiset(Identity(count))
  {
    ShuffleKeeps(Identity(count), DrawsFrom(seed, count));
  }

  /** The orders between the swaps of a shuffle, and the draws and states behind them. */
  lemma {:induction false} ShuffleSteps(a: seq<nat>, state: nat, remaining: nat)
    returns (orders: seq<seq<nat>>, draws: seq<nat>, states: seq<nat>)
    requires state < WORD && remaining < WORD && remaining <= |a|
    ensures |draws| == (if remaining > 1 then remaining - 1 else 0) && |orders| == |states| == |draws| + 1
    ensures orders[0] == a && states[0] == state
    ensures forall k :: 0 <= k < |draws| ==> SwapStep(orders, draws, states, k, remaining)
    ensures orders[|draws|] == Shuffle(a, DrawsFrom(state, remaining))
    decreases remaining
  {
    hide Draw, DrawsFrom, Shuffle, SwapStep;
    FirstDraw(a, state, remaining);
    if remaining <= 1 {
      orders, draws, states := [a], [], [state];
    } else {
      var (value, next) := Draw(state, remaining);
      var b := Swap(a, remaining - 1, value);
      var o, d, s := ShuffleSteps(b, next, remaining - 1);
      orders, draws, states := [a] + o, [value] + d, [state] + s;
      forall k | 0 <= k < |draws| ensures SwapStep(orders, draws, states, k, remaining) {
        OneStepOn(a, value, state, o, d, s, k, remaining);
      }
    }
  }

  lemma FirstDraw(a: seq<nat>, state: nat, remaining: nat)
    requires state < WORD && remaining < WORD && remaining <= |a|
    ensures remaining <= 1 ==> Shuffle(a, DrawsFrom(state, remaining)) == a
    ensures remaining > 1 ==>
      Shuffle(a, DrawsFrom(state, remaining)) ==
      Shuffle(Swap(a, remaining - 1, Draw(state, remaining).0), DrawsFrom(Draw(state, remaining).1, remaining - 1))
  {
    hide Draw;
    if remaining > 1 {
      var draws := DrawsFrom(state, remaining);
      assert draws[1..] == DrawsFrom(Draw(state, remaining).1, remaining - 1);
    }
  }

  lemma OneStepOn(a: seq<nat>, value: nat, state: nat, o: seq<seq<nat>>, d: seq<nat>, s: seq<nat>, k: nat,
                  remaining: nat)
    requires 1 < remaining < WORD && remaining <= |a| && state < WORD && |d| == remaining - 2
    requires |o| == |s| == |d| + 1 && k <= |d| && (k > 0 ==> SwapStep(o, d, s, k - 1, remaining - 1))
    requires value == Draw(state, remaining).0 && s[0] == Draw(state, remaining).1
    requires o[0] == Swap(a, remaining - 1, value)
    ensures SwapStep([a] + o, [value] + d, [state] + s, k, remaining)
  {
    hide Draw;
  }

  ghost predicate SwapStep(orders: seq<seq<nat>>, draws: seq<nat>, states: seq<nat>, k: nat, remaining: nat)
    requires k < |draws| < |orders| && |draws| < |states| && k < remaining < WORD
  {
    && states[k] < WORD
    && draws[k] == Draw(states[k], remaining - k).0 && states[k + 1] == Draw(states[k], remaining - k).1
    && remaining - 1 - k < |orders[k]| && draws[k] < |orders[k]|
    && orders[k + 1] == Swap(orders[k], remaining - 1 - k, draws[k])
  }

  /** The frozen order step by step: from 0, 1, 2 and so on, each step draws below
      the number of open places, with the state the last draw left, and exchanges
      the last open place with the drawn one. */
  lemma FrozenMeans(count: nat, seed: nat)
    returns (orders: seq<seq<nat>>, draws: seq<nat>, states: seq<nat>)
    requires seed < WORD && count < WORD
    ensures |draws| == (if count > 1 then count - 1 else 0) && |orders| == |states| == |draws| + 1
    ensures |orders[0]| == count && forall i :: 0 <= i < count ==> orders[0][i] == i
    ensures states[0] == seed
    ensures forall k :: 0 <= k < |draws| ==>
      var drawn := Draw(if states[k] < WORD then states[k] else 0, count - k);
      states[k] < WORD && draws[k] == drawn.0 && states[k + 1] == drawn.1
    ensures forall k :: 0 <= k < |draws| ==>
      var a, b, last, drawn := orders[k], orders[k + 1], count - 1 - k, draws[k];
      |a| == |b| == count && drawn <= last && b == a[last := a[drawn]][drawn := a[last]]
    ensures orders[|draws|] == Frozen(count, seed)
  {
    hide Draw;
    orders, draws, states := ShuffleSteps(Identity(count), seed, count);
    forall k | 0 <= k < |draws| ensures SwapStep(orders, draws, states, k, count) && |orders[k]| == count {
      StepsKeepLength(orders, draws, states, count, k);
    }
    forall k | 0 <= k < |draws|
      ensures states[k] < WORD
      ensures draws[k] == Draw(states[k], count - k).0 && states[k + 1] == Draw(states[k], count - k).1
      ensures draws[k] <= count - 1 - k && orders[k + 1] == Swap(orders[k], count - 1 - k, draws[k])
    {
      assert SwapStep(orders, draws, states, k, count);
    }
  }

  lemma {:induction false} StepsKeepLength(orders: seq<seq<nat>>, draws: seq<nat>, states: seq<nat>, count: nat, k: nat)
    requires |orders| == |states| == |draws| + 1 && |draws| < count < WORD && |orders[0]| == count
    requires forall i :: 0 <= i < |draws| ==> SwapStep(orders, draws, states, i, count)
    requires k <= |draws|
    ensures |orders[k]| == count
  {
    if k > 0 {
      StepsKeepLength(orders, draws, states, count, k - 1);
      assert SwapStep(orders, draws, states, k - 1, count);
    }
  }

  /** Every rearrangement is reached by some draws. */
  lemma ShuffleReaches(a: seq<nat>, t: seq<nat>) returns (draws: seq<nat>)
    requires multiset(a) == multiset(t)
    ensures ValidDraws(draws, |a|) && (draws == [] || |draws| < |a|) && Shuffle(a, draws) == t
  {
    assert |multiset(a)| == |a| && |multiset(t)| == |t|;
    draws := ReachOpen(a, t, |a|);
  }

  /** The same with n open places: the others are right already. */
  lemma {:induction false} ReachOpen(a: seq<nat>, t: seq<nat>, n: nat) returns (draws: seq<nat>)
    requires |a| == |t| && n <= |a| && a[n..] == t[n..] && multiset(a) == multiset(t)
    ensures ValidDraws(draws, n) && (draws == [] || |draws| < |a|) && Shuffle(a, draws) == t
    decreases n
  {
    hide Swap;
    OpenContents(a, t, n);
    if n <= 1 {
      draws := [];
      OneOpen(a, t, n);
    } else {
      var last := n - 1;
      var j := OpenPlace(a, t, n);
      var b := Swap(a, last, j);
      SwapKeeps(a, last, j);
      SwapCloses(a, t, n, j);
      var rest := ReachOpen(b, t, last);
      draws := [j] + rest;
      assert draws[1..] == rest;
    }
  }

  lemma OpenContents(a: seq<nat>, t: seq<nat>, n: nat)
    requires |a| == |t| && n <= |a| && a[n..] == t[n..] && multiset(a) == multiset(t)
    ensures multiset(a[..n]) == multiset(t[..n])
  {
    assert a == a[..n] + a[n..] && t == t[..n] + t[n..];
    assert multiset(a[..n]) == multiset(a) - multiset(a[n..]);
    assert multiset(t[..n]) == multiset(t) - multiset(t[n..]);
  }

  lemma OneOpen(a: seq<nat>, t: seq<nat>, n: nat)
    requires |a| == |t| && n <= |a| && n <= 1 && a[n..] == t[n..] && multiset(a[..n]) == multiset(t[..n])
    ensures a == t
  {
    if n == 1 {
      assert t[0] in multiset(t[..1]);
      assert a[..1] == [a[0]] && t[0] == a[0];
    }
    assert a == a[..n] + a[n..] && t == t[..n] + t[n..];
  }

  lemma OpenPlace(a: seq<nat>, t: seq<nat>, n: nat) returns (j: nat)
    requires 0 < n <= |a| == |t| && multiset(a[..n]) == multiset(t[..n])
    ensures j < n && a[j] == t[n - 1]
  {
    assert t[..n][n - 1] in multiset(t[..n]);
    assert t[n - 1] in a[..n];
    j :| j < n && a[..n][j] == t[n - 1];
  }

  lemma SwapCloses(a: seq<nat>, t: seq<nat>, n: nat, j: nat)
    requires 0 < n <= |a| == |t| && a[n..] == t[n..] && j < n && a[j] == t[n - 1]
    ensures Swap(a, n - 1, j)[n - 1..] == t[n - 1..]
  {
    var b := Swap(a, n - 1, j);
    assert b[n..] == a[n..];
    assert b[n - 1..] == [b[n - 1]] + b[n..] && t[n - 1..] == [t[n - 1]] + t[n..];
  }

  /** Different draws give different orders, so with distinct rows each order comes from exactly one draw sequence. */
  lemma {:induction false} ShuffleIsInjective(a: seq<nat>, x: seq<nat>, y: seq<nat>)
    requires ValidDraws(x, |x| + 1) && ValidDraws(y, |y| + 1) && |x| == |y|
    requires x == [] || |x| < |a|
    requires forall i, j :: 0 <= i < j < |a| ==> a[i] != a[j]
    requires Shuffle(a, x) == Shuffle(a, y)
    ensures x == y
    decreases x
  {
    if x != [] {
      var last := |x|;
      var b, c := Swap(a, last, x[0]), Swap(a, last, y[0]);
      ShuffleKeeps(b, x[1..]);
      ShuffleKeeps(c, y[1..]);
      assert b[last] == c[last];
      assert x[0] == y[0];
      ShuffleIsInjective(b, x[1..], y[1..]);
      assert x == [x[0]] + x[1..] && y == [y[0]] + y[1..];
    }
  }

  method FrozenOrder(count: nat, seed: nat) returns (result: array<nat>)
    requires seed < WORD && count < WORD
    ensures fresh(result) && result[..] == Frozen(count, seed)
  {
    hide Draw;
    result := new nat[count](i => i);
    assert result[..] == Identity(count);
    var state: nat, remaining: nat := seed, count;
    while remaining > 1
      invariant remaining <= count && state < WORD
      invariant Shuffle(result[..], DrawsFrom(state, remaining)) == Frozen(count, seed)
    {
      ghost var before, draws := result[..], DrawsFrom(state, remaining);
      var selected, next := BoundedDraw(state, remaining);
      assert draws[0] == selected.value && draws[1..] == DrawsFrom(next, remaining - 1);
      result[remaining - 1], result[selected.value] := result[selected.value], result[remaining - 1];
      assert result[..] == Swap(before, remaining - 1, selected.value);
      state, remaining := next, remaining - 1;
    }
  }
}

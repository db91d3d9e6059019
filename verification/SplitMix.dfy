// The 64-bit generator behind the frozen permutation, on natural numbers below
// two to the sixty-fourth.

module SplitMix {
  import opened Divisibility
  import opened Powers

  const WORD: nat := 0x1_0000_0000_0000_0000

  // --- Exclusive or and right shift ---

  /** Right shift by k: k halvings. */
  function Shr(x: nat, k: nat): nat {
    if k == 0 then x else Shr(x / 2, k - 1)
  }

  function Xor(a: nat, b: nat): nat {
    if a == 0 && b == 0 then 0 else (a % 2 + b % 2) % 2 + 2 * Xor(a / 2, b / 2)
  }

  lemma XorStep(a: nat, b: nat)
    ensures Xor(a, b) == (a % 2 + b % 2) % 2 + 2 * Xor(a / 2, b / 2)
    ensures Xor(a, b) % 2 == (a % 2 + b % 2) % 2 && Xor(a, b) / 2 == Xor(a / 2, b / 2)
  {
    hide Xor;
    XorUnfolds(a, b);
    Halves((a % 2 + b % 2) % 2, Xor(a / 2, b / 2));
  }

  lemma XorUnfolds(a: nat, b: nat)
    ensures Xor(a, b) == (a % 2 + b % 2) % 2 + 2 * Xor(a / 2, b / 2)
  {
  }

  lemma Halves(digit: nat, rest: nat)
    requires digit < 2
    ensures (digit + 2 * rest) % 2 == digit && (digit + 2 * rest) / 2 == rest
  {
  }

  lemma Twice(a: nat, b: nat)
    ensures ((a % 2 + b % 2) % 2 + b % 2) % 2 == a % 2
  {
  }

  lemma {:induction false} XorBack(a: nat, b: nat)
    ensures Xor(Xor(a, b), b) == a
    decreases a + b
  {
    if a != 0 || b != 0 {
      hide Xor;
      XorBack(a / 2, b / 2);
      XorStep(a, b);
      XorStep(Xor(a, b), b);
      Twice(a, b);
    }
  }

  lemma {:induction false} XorFits(a: nat, b: nat, k: nat)
    requires a < Pow2(k) && b < Pow2(k)
    ensures Xor(a, b) < Pow2(k)
    decreases k
  {
    if k > 0 {
      XorFits(a / 2, b / 2, k - 1);
    }
  }

  lemma {:induction false} XorShifts(a: nat, b: nat, k: nat)
    ensures Shr(Xor(a, b), k) == Xor(Shr(a, k), Shr(b, k))
    decreases k
  {
    if k > 0 {
      XorShifts(a / 2, b / 2, k - 1);
      assert Xor(a, b) / 2 == Xor(a / 2, b / 2);
    }
  }

  lemma {:induction false} ShrFits(x: nat, n: nat, k: nat)
    requires x < Pow2(n)
    ensures Shr(x, k) < Pow2(if k <= n then n - k else 0)
    decreases k
  {
    if k > 0 {
      if n > 0 {
        ShrFits(x / 2, n - 1, k - 1);
      } else {
        ShrFits(x / 2, 0, k - 1);
      }
    }
  }

  // --- Xor-shift is a bijection on words of any width ---

  function XorShift(x: nat, k: nat): nat {
    Xor(x, Shr(x, k))
  }

  /** The inverse, from the top bits down; n is the width. */
  function Unshift(y: nat, k: nat, n: nat): nat
    requires k > 0
    decreases n
  {
    if n <= k then y else Xor(y, Unshift(Shr(y, k), k, n - k))
  }

  lemma XorZero(x: nat)
    ensures Xor(x, 0) == x
  {
    if x != 0 {
      XorZero(x / 2);
    }
  }

  lemma {:induction false} ShiftedAway(x: nat, n: nat, k: nat)
    requires x < Pow2(n) && n <= k
    ensures Shr(x, k) == 0
  {
    ShrFits(x, n, k);
  }

  lemma {:induction false} UnshiftUndoes(x: nat, k: nat, n: nat)
    requires k > 0 && x < Pow2(n)
    ensures Unshift(XorShift(x, k), k, n) == x
    decreases n
  {
    if n <= k {
      ShiftedAway(x, n, k);
      XorZero(x);
    } else {
      XorShifts(x, Shr(x, k), k);
      ShrFits(x, n, k);
      UnshiftUndoes(Shr(x, k), k, n - k);
      XorBack(x, Shr(x, k));
    }
  }

  lemma {:induction false} ShiftUndoes(y: nat, k: nat, n: nat)
    requires k > 0 && y < Pow2(n)
    ensures Unshift(y, k, n) < Pow2(n) && XorShift(Unshift(y, k, n), k) == y
    decreases n
  {
    if n <= k {
      ShiftedAway(y, n, k);
      XorZero(y);
    } else {
      var h := Unshift(Shr(y, k), k, n - k);
      ShrFits(y, n, k);
      ShiftUndoes(Shr(y, k), k, n - k);
      Pow2Grows(n - k, n);
      XorFits(y, h, n);
      XorShifts(y, h, k);
      XorBack(h, Shr(h, k));
      XorCommutes(h, Shr(h, k));
      XorBack(Shr(h, k), h);
      XorCommutes(Shr(y, k), Shr(h, k));
      XorBack(y, h);
    }
  }

  lemma {:induction false} XorCommutes(a: nat, b: nat)
    ensures Xor(a, b) == Xor(b, a)
    decreases a + b
  {
    if a != 0 || b != 0 {
      XorCommutes(a / 2, b / 2);
    }
  }

  // --- Multiplication by an odd constant is a bijection ---

  const MIX1: nat := 0xbf58476d1ce4e5b9
  const UNMIX1: nat := 0x96de1b173f119089
  const MIX2: nat := 0x94d049bb133111eb
  const UNMIX2: nat := 0x319642b2d24d8ec3
  const GAMMA: nat := 0x9e3779b97f4a7c15
  const UNGAMMA: nat := 0xf1de83e19937733d

  lemma WordIsPow2()
    ensures Pow2(64) == WORD
  {
    assert Pow2(4) == 16 by {
      assert Pow2(2) == 4;
    }
    Pow2Adds(4, 4);
    Pow2Adds(8, 8);
    Pow2Adds(16, 16);
    Pow2Adds(32, 32);
  }

  lemma Modulo(x: int, v: nat, t: int)
    requires x == v + WORD * t && v < WORD
    ensures x % WORD == v
  {
  }

  /** Constants c and d with c * d == 1 + WORD * e undo each other. */
  lemma TimesUndone(v: nat, c: nat, d: nat, e: nat)
    requires v < WORD && c * d == 1 + WORD * e
    ensures (v * c % WORD) * d % WORD == v
  {
    var q, r := v * c / WORD, v * c % WORD;
    assert r == v * c - WORD * q;
    assert r * d == v * c * d - WORD * q * d;
    assert v * c * d == v * (1 + WORD * e) == v + WORD * (v * e);
    assert WORD * q * d == WORD * (q * d);
    Modulo(r * d, v, v * e - q * d);
  }

  // --- The finalizer ---

  /** splitmix64's finalizer. */
  function Mix(x: nat): (y: nat)
    requires x < WORD
    ensures y < WORD
  {
    WordIsPow2();
    ShrFits(x, 64, 30);
    Pow2Grows(34, 64);
    XorFits(x, Shr(x, 30), 64);
    var a := XorShift(x, 30) * MIX1 % WORD;
    ShrFits(a, 64, 27);
    Pow2Grows(37, 64);
    XorFits(a, Shr(a, 27), 64);
    var b := XorShift(a, 27) * MIX2 % WORD;
    ShrFits(b, 64, 31);
    Pow2Grows(33, 64);
    XorFits(b, Shr(b, 31), 64);
    XorShift(b, 31)
  }

  /** Its inverse. */
  function Unmix(y: nat): (x: nat)
    requires y < WORD
    ensures x < WORD
  {
    WordIsPow2();
    ShiftUndoes(y, 31, 64);
    var a := Unshift(y, 31, 64) * UNMIX2 % WORD;
    ShiftUndoes(a, 27, 64);
    var b := Unshift(a, 27, 64) * UNMIX1 % WORD;
    ShiftUndoes(b, 30, 64);
    Unshift(b, 30, 64)
  }

  lemma ShiftFits(x: nat, k: nat)
    requires x < WORD && 0 < k <= 64
    ensures XorShift(x, k) < WORD && Unshift(XorShift(x, k), k, 64) == x
    ensures Unshift(x, k, 64) < WORD && XorShift(Unshift(x, k, 64), k) == x
  {
    WordIsPow2();
    ShrFits(x, 64, k);
    Pow2Grows(64 - k, 64);
    XorFits(x, Shr(x, k), 64);
    UnshiftUndoes(x, k, 64);
    ShiftUndoes(x, k, 64);
  }

  lemma Times1(v: nat)
    requires v < WORD
    ensures (v * MIX1 % WORD) * UNMIX1 % WORD == v && (v * UNMIX1 % WORD) * MIX1 % WORD == v
  {
    TimesUndone(v, MIX1, UNMIX1, 8125545580553827436);
    TimesUndone(v, UNMIX1, MIX1, 8125545580553827436);
  }

  lemma Times2(v: nat)
    requires v < WORD
    ensures (v * MIX2 % WORD) * UNMIX2 % WORD == v && (v * UNMIX2 % WORD) * MIX2 % WORD == v
  {
    TimesUndone(v, MIX2, UNMIX2, 2077064247507883091);
    TimesUndone(v, UNMIX2, MIX2, 2077064247507883091);
  }

  /** The finalizer is a bijection on 64-bit words. */
  lemma MixIsBijective(x: nat)
    requires x < WORD
    ensures Unmix(Mix(x)) == x && Mix(Unmix(x)) == x
  {
    hide XorShift, Unshift;
    ShiftFits(x, 30);
    var a0 := XorShift(x, 30);
    Times1(a0);
    var a := a0 * MIX1 % WORD;
    ShiftFits(a, 27);
    var b0 := XorShift(a, 27);
    Times2(b0);
    var b := b0 * MIX2 % WORD;
    ShiftFits(b, 31);
    assert Unmix(Mix(x)) == x;
    ShiftFits(x, 31);
    var c0 := Unshift(x, 31, 64);
    Times2(c0);
    var c := c0 * UNMIX2 % WORD;
    ShiftFits(c, 27);
    var e0 := Unshift(c, 27, 64);
    Times1(e0);
    var e := e0 * UNMIX1 % WORD;
    ShiftFits(e, 30);
    assert Mix(Unmix(x)) == x;
  }

  // --- The state walks through every word ---

  function Advance(state: nat): (next: nat)
    ensures next < WORD
  {
    (state + GAMMA) % WORD
  }

  /** How many advances lead from one state to another. */
  function Steps(from: nat, to: nat): (n: nat)
    ensures n < WORD
  {
    (to - from) * UNGAMMA % WORD
  }

  const UNGAMMA_WORDS: nat := 10771413168148108919

  lemma GammaInverse()
    ensures GAMMA * UNGAMMA == 1 + WORD * UNGAMMA_WORDS
  {
  }

  /** Multiplying a nonzero difference by an invertible constant does not give a multiple of the word. */
  lemma StepsNonzero(from: nat, to: nat)
    requires from < WORD && to < WORD && from != to
    ensures Steps(from, to) > 0
  {
    var d := to - from;
    if d > 0 {
      TimesUndone(d, UNGAMMA, GAMMA, UNGAMMA_WORDS);
    } else {
      var v := d + WORD;
      TimesUndone(v, UNGAMMA, GAMMA, UNGAMMA_WORDS);
      assert v * UNGAMMA == d * UNGAMMA + WORD * UNGAMMA;
      Modulo(v * UNGAMMA, d * UNGAMMA % WORD, d * UNGAMMA / WORD + UNGAMMA);
    }
  }

  lemma OneStepCloser(from: nat, to: nat)
    requires from < WORD && to < WORD && from != to
    ensures Steps(Advance(from), to) == Steps(from, to) - 1
  {
    StepsNonzero(from, to);
    GammaInverse();
    var d, n := to - from, Steps(from, to);
    var q := d * UNGAMMA / WORD;
    var c := (from + GAMMA) / WORD;
    assert Advance(from) == from + GAMMA - WORD * c;
    var next := to - Advance(from);
    assert next == d - GAMMA + WORD * c;
    assert next * UNGAMMA == d * UNGAMMA - GAMMA * UNGAMMA + WORD * c * UNGAMMA;
    assert WORD * c * UNGAMMA == WORD * (c * UNGAMMA);
    Modulo(next * UNGAMMA, n - 1, q - UNGAMMA_WORDS + c * UNGAMMA);
  }

  /** After Steps advances the state is there. */
  lemma {:induction false} StepsReach(from: nat, to: nat)
    requires from < WORD && to < WORD
    ensures AdvanceBy(from, Steps(from, to)) == to
    decreases Steps(from, to)
  {
    if from != to {
      StepsNonzero(from, to);
      OneStepCloser(from, to);
      StepsReach(Advance(from), to);
    } else {
      assert Steps(from, to) == 0;
    }
  }

  function AdvanceBy(state: nat, n: nat): nat
    decreases n
  {
    if n == 0 then state else AdvanceBy(Advance(state), n - 1)
  }

  // --- The generator in numbers ---

  /** A right shift divides by a power of two. */
  lemma {:induction false} ShrDivides(x: nat, k: nat)
    ensures Pow2(k) > 0 && Shr(x, k) == x / Pow2(k)
    decreases k
  {
    if k > 0 {
      ShrDivides(x / 2, k - 1);
      HalfFirst(x, Pow2(k - 1));
    }
  }

  lemma HalfFirst(x: nat, p: nat)
    requires p > 0
    ensures x / 2 / p == x / (2 * p)
  {
    var q := x / 2 / p;
    assert x / 2 == p * q + x / 2 % p;
    assert x == (2 * p) * q + (2 * (x / 2 % p) + x % 2);
    Quotient(x, 2 * p, q, 2 * (x / 2 % p) + x % 2);
  }

  lemma Quotient(x: nat, p: nat, q: nat, r: nat)
    requires p > 0 && x == p * q + r && r < p
    ensures x / p == q
  {
    Division(x, p);
    if x / p < q {
      Apart(p, x / p, q);
    } else if q < x / p {
      Apart(p, q, x / p);
    }
  }

  function Bit(x: nat, i: nat): nat {
    Shr(x, i) % 2
  }

  /** Each bit of an exclusive or is one exactly when the two bits differ. */
  lemma {:induction false} XorBits(a: nat, b: nat, i: nat)
    ensures Bit(Xor(a, b), i) == if Bit(a, i) == Bit(b, i) then 0 else 1
    decreases i
  {
    hide Xor;
    XorStep(a, b);
    if i > 0 {
      XorBits(a / 2, b / 2, i - 1);
    }
  }

  /** The finalizer: two rounds of shift, exclusive or and multiplication, and one more shift. */
  lemma MixInWords(x: nat) returns (a: nat, b: nat)
    requires x < 0x1_0000_0000_0000_0000
    ensures a == Xor(x, x / 0x4000_0000) * 0xbf58476d1ce4e5b9 % 0x1_0000_0000_0000_0000
    ensures b == Xor(a, a / 0x800_0000) * 0x94d049bb133111eb % 0x1_0000_0000_0000_0000
    ensures Mix(x) == Xor(b, b / 0x8000_0000)
  {
    hide Xor, Shr;
    PowersInWords();
    ShrDivides(x, 30);
    a := XorShift(x, 30) * MIX1 % WORD;
    ShrDivides(a, 27);
    b := XorShift(a, 27) * MIX2 % WORD;
    ShrDivides(b, 31);
  }

  lemma PowersInWords()
    ensures Pow2(30) == 0x4000_0000 && Pow2(27) == 0x800_0000 && Pow2(31) == 0x8000_0000
  {
    assert Pow2(3) == 8 && Pow2(4) == 16 && Pow2(2) == 4;
    Pow2Adds(4, 4);
    Pow2Adds(8, 8);
    Pow2Adds(8, 3);
    Pow2Adds(16, 11);
    Pow2Adds(16, 11);
    Pow2Adds(27, 3);
    Pow2Adds(27, 4);
  }

  /** After n advances the state has grown by n times the increment. */
  lemma {:induction false} AdvanceByAdds(state: nat, n: nat)
    requires state < 0x1_0000_0000_0000_0000
    ensures AdvanceBy(state, n) == (state + n * 0x9e3779b97f4a7c15) % 0x1_0000_0000_0000_0000
    decreases n
  {
    if n > 0 {
      AdvanceByAdds(Advance(state), n - 1);
      assert Advance(state) == state + GAMMA - WORD * ((state + GAMMA) / WORD);
      var wraps := (state + GAMMA) / WORD;
      assert n * GAMMA == GAMMA + (n - 1) * GAMMA;
      var y := Advance(state) + (n - 1) * GAMMA;
      assert state + n * GAMMA == y + WORD * wraps;
      Modulo(state + n * GAMMA, y % WORD, y / WORD + wraps);
    }
  }
}

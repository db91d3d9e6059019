// Divisibility and powers of two, from multiplication up.

module Divisibility {

  predicate IsPow2(w: nat) {
    w == 1 || (w > 1 && w % 2 == 0 && IsPow2(w / 2))
  }

  // --- Divisibility ---

  lemma {:induction false} MultipleHasNoRemainder(w: nat, x: nat)
    requires w > 0
    ensures (w * x) % w == 0
  {
    if x > 0 {
      MultipleHasNoRemainder(w, x - 1);
      assert w * x == w * (x - 1) + w;
      AddDivisor(w * (x - 1), w);
    }
  }

  lemma AddDivisor(a: nat, w: nat)
    requires w > 0
    ensures (a + w) % w == a % w
  {
    var q, r := a / w, a % w;
    assert a + w == w * (q + 1) + r;
    QuotientUnique(a + w, w, q + 1, r);
  }

  lemma Apart(w: nat, x: nat, y: nat)
    requires x < y
    ensures w * x + w <= w * y
  {
    assert w * y == w * x + w * (y - x);
    assert w * (y - x) == w + w * (y - x - 1);
    NonNegative(w, y - x - 1);
  }

  lemma NonNegative(w: nat, x: nat)
    ensures w * x >= 0
  {
  }

  lemma QuotientUnique(a: nat, w: nat, q: nat, r: nat)
    requires w > 0 && r < w && a == w * q + r
    ensures a % w == r
  {
    var q', r' := a / w, a % w;
    Division(a, w);
    if q < q' {
      Apart(w, q, q');
    } else if q' < q {
      Apart(w, q', q);
    }
  }

  lemma Division(a: nat, w: nat)
    requires w > 0
    ensures a == w * (a / w) + a % w
  {
  }

  lemma DividesTrans(a: nat, v: nat, w: nat)
    requires v > 0 && w > 0 && a % v == 0 && v % w == 0
    ensures a % w == 0
  {
    var x, y := a / v, v / w;
    assert a == v * x && v == w * y;
    assert w * y * x == w * (y * x);
    MultipleHasNoRemainder(w, y * x);
  }

  lemma DividesSum(a: nat, b: nat, w: nat)
    requires w > 0 && a % w == 0 && b % w == 0
    ensures (a + b) % w == 0
  {
    var x, y := a / w, b / w;
    assert a == w * x && b == w * y;
    assert a + b == w * (x + y);
    MultipleHasNoRemainder(w, x + y);
  }

  /** Two multiples of w that differ do so by at least w. */
  lemma MultiplesApart(a: nat, b: nat, w: nat)
    requires w > 0 && a % w == 0 && b % w == 0 && a < b
    ensures a + w <= b
  {
    var x, y := a / w, b / w;
    assert a == w * x && b == w * y;
    if x < y {
      Apart(w, x, y);
    } else if y < x {
      Apart(w, y, x);
    }
  }

  /** Powers of two divide each other in order. */
  lemma {:induction false} Pow2Order(w: nat, v: nat)
    requires IsPow2(w) && IsPow2(v) && w < v
    ensures 2 * w <= v && v % (2 * w) == 0
  {
    if w > 1 {
      Pow2Order(w / 2, v / 2);
      var q := (v / 2) / w;
      assert v / 2 == w * q;
      assert v == (2 * w) * q;
      MultipleHasNoRemainder(2 * w, q);
    }
  }

  lemma Pow2Divides(w: nat, v: nat)
    requires IsPow2(w) && IsPow2(v) && w <= v
    ensures v % w == 0
  {
    if w < v {
      Pow2Order(w, v);
      DividesTrans(v, 2 * w, w);
    }
  }

  /** The next multiple is at least one width further. */
  lemma NextMultiple(width: nat, q: nat, d: nat)
    ensures q < d ==> q * width + width <= d * width
  {
    if q < d {
      assert (q + 1) * width <= d * width;
    }
  }

  /** A number has one quotient and one remainder. */
  lemma Digits(width: nat, q: nat, x: nat, d: nat, y: nat)
    requires x < width && y < width && q * width + x == d * width + y
    ensures q == d && x == y
  {
    NextMultiple(width, q, d);
    NextMultiple(width, d, q);
  }
}
